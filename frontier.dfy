/** What a_star and its corridor helper __find_next_branch of src/maze.py
    keep: the walk a corridor takes, the cells it leaves visited and
    linked, and the frontier of finite f scores that the heap holds. */
module MazeFrontier {
  import opened Cell
  import opened MazeGrid
  import opened MazeGraph
  import opened MazeSearch
  import opened PriorityQueue

  /** `b` is `a` but for its visited flag and its parent link. */
  predicate MarkOnly(a: Cell, b: Cell) {
    SameFrame(a, b) && b.g == a.g && b.f == a.f
  }

  /** From `g` to `g2` only visited flags and parent links changed. */
  ghost predicate Marked(g: Grid, g2: Grid, rows: int, cols: int)
    requires WellFormed(g, rows, cols) && WellFormed(g2, rows, cols)
  {
    forall p | InBounds(rows, cols, p) :: MarkOnly(At(g, p), At(g2, p))
  }

  /** One step of the loop of __find_next_branch: `next` linked to `cur`,
      then `cur` marked visited. */
  ghost predicate Stepped(g: Grid, g2: Grid, rows: int, cols: int, cur: Pos, next: Pos)
    requires WellFormed(g, rows, cols) && WellFormed(g2, rows, cols)
  {
    forall p | InBounds(rows, cols, p) ::
      && MarkOnly(At(g, p), At(g2, p))
      && At(g2, p).visited == (At(g, p).visited || p == cur)
      && At(g2, p).parent == if p == next then Some(cur) else At(g, p).parent
  }

  /** A step after changes of flags and links only is again a change of
      flags and links only. */
  lemma StepMarked(g: Grid, g1: Grid, g2: Grid, rows: int, cols: int, cur: Pos, next: Pos)
    requires WellFormed(g, rows, cols) && WellFormed(g1, rows, cols) && WellFormed(g2, rows, cols)
    requires Marked(g, g1, rows, cols) && Stepped(g1, g2, rows, cols, cur, next)
    ensures Marked(g, g2, rows, cols)
  {
    forall p | InBounds(rows, cols, p)
      ensures MarkOnly(At(g, p), At(g2, p))
    {
      assert MarkOnly(At(g, p), At(g1, p));
    }
  }

  /** One step of the loop of __find_next_branch on the grid: `next` gets
      `cur` as its parent, then `cur` is marked visited. */
  function StepGrid(g: Grid, rows: int, cols: int, cur: Pos, next: Pos): (r: Grid)
    requires WellFormed(g, rows, cols) && InBounds(rows, cols, cur) && InBounds(rows, cols, next)
    ensures WellFormed(r, rows, cols) && Stepped(g, r, rows, cols, cur, next)
  {
    UpdateEffect(g, rows, cols, next, At(g, next).(parent := Some(cur)));
    var gp := SetParent(g, next, cur);
    SetVisitedEffect(gp, rows, cols, cur);
    SetVisited(gp, cur)
  }

  /** One turn of the loop of __find_next_branch, from grid `g` to grid
      `g2`: `cur` is short of the goal and has `next` as its one
      accessible neighbour, which gets `cur` as its parent, and `cur` is
      marked visited. */
  ghost predicate CorridorMove(g: Grid, g2: Grid, rows: int, cols: int, cur: Pos, next: Pos) {
    && WellFormed(g, rows, cols) && WellFormed(g2, rows, cols) && InBounds(rows, cols, cur)
    && cur != Goal(rows, cols) && AccessibleNeighbors(g, rows, cols, cur) == [next]
    && Stepped(g, g2, rows, cols, cur, next)
  }

  /** Turn `t` of a walk along `path` through the grids `grids`. */
  ghost predicate WalkAt(rows: int, cols: int, grids: seq<Grid>, path: seq<Pos>, t: int)
    requires |grids| == |path| && 0 <= t < |path| - 1
  {
    CorridorMove(grids[t], grids[t + 1], rows, cols, path[t], path[t + 1])
  }

  /** `path` is walked from `g` as __find_next_branch walks it, `grids[t]`
      being the grid when the walk stands at `path[t]`. */
  ghost predicate Walk(g: Grid, rows: int, cols: int, grids: seq<Grid>, path: seq<Pos>) {
    && |path| > 0 && |grids| == |path| && grids[0] == g
    && forall t | 0 <= t < |path| - 1 :: WalkAt(rows, cols, grids, path, t)
  }

  /** The cells of the grid not yet visited; each step of a corridor
      leaves one of them behind. */
  ghost function Unvisited(g: Grid, rows: int, cols: int): set<Pos>
    requires WellFormed(g, rows, cols)
  {
    set p | p in AllCells(rows, cols) && InBounds(rows, cols, p) && !At(g, p).visited
  }

  /** A step marks `cur` visited and unmarks nothing. */
  lemma StepShrinks(g: Grid, g2: Grid, rows: int, cols: int, cur: Pos, next: Pos)
    requires WellFormed(g, rows, cols) && WellFormed(g2, rows, cols) && InBounds(rows, cols, cur)
    requires Stepped(g, g2, rows, cols, cur, next)
    ensures |Unvisited(g2, rows, cols)| <= |Unvisited(g, rows, cols)|
    ensures !At(g, cur).visited ==> |Unvisited(g2, rows, cols)| < |Unvisited(g, rows, cols)|
  {
    var u, u2 := Unvisited(g, rows, cols), Unvisited(g2, rows, cols);
    assert u2 <= u - {cur};
    SubsetCard(u2, u - {cur});
    if !At(g, cur).visited {
      AllCellsMembership(rows, cols, cur);
      assert cur in u;
    }
  }

  /** The one accessible neighbour of the end of a corridor is an
      unvisited cell one open move away. */
  lemma NextOfCorridor(g: Grid, rows: int, cols: int, cur: Pos, next: Pos)
    requires WellFormed(g, rows, cols) && InBounds(rows, cols, cur)
    requires AccessibleNeighbors(g, rows, cols, cur) == [next]
    ensures InBounds(rows, cols, next) && next != cur && !At(g, next).visited
    ensures Move(g, rows, cols, cur, next)
  {
    assert next in [next];
    var d :| next == Step(cur, d) && ForwardMove(g, rows, cols, cur, d);
  }

  /** A walk goes on by one more turn of the loop. */
  lemma WalkOn(g: Grid, rows: int, cols: int, grids: seq<Grid>, path: seq<Pos>, g2: Grid, next: Pos)
    requires Walk(g, rows, cols, grids, path)
    requires CorridorMove(grids[|path| - 1], g2, rows, cols, path[|path| - 1], next)
    ensures Walk(g, rows, cols, grids + [g2], path + [next])
  {
    var grids2, path2 := grids + [g2], path + [next];
    forall t | 0 <= t < |path2| - 1
      ensures WalkAt(rows, cols, grids2, path2, t)
    {
      if t < |path| - 1 {
        assert WalkAt(rows, cols, grids, path, t);
      }
    }
  }

  /** The cells visited in `g2` are those visited in `g` and those the walk
      left behind. */
  ghost predicate NewVisits(g: Grid, g2: Grid, rows: int, cols: int, path: seq<Pos>)
    requires WellFormed(g, rows, cols) && WellFormed(g2, rows, cols)
  {
    && |path| > 0
    && forall p | InBounds(rows, cols, p) ::
         At(g2, p).visited == (At(g, p).visited || p in path[..|path| - 1])
  }

  /** One turn adds the cell it leaves to the walk's new visits. */
  lemma StepVisits(g: Grid, g1: Grid, g2: Grid, rows: int, cols: int, path: seq<Pos>, next: Pos)
    requires WellFormed(g, rows, cols) && WellFormed(g1, rows, cols) && WellFormed(g2, rows, cols)
    requires NewVisits(g, g1, rows, cols, path)
    requires Stepped(g1, g2, rows, cols, path[|path| - 1], next)
    ensures NewVisits(g, g2, rows, cols, path + [next])
  {
    var path2 := path + [next];
    assert path2[..|path2| - 1] == path;
    SplitLast(path);
  }

  /** The move from `p` in direction `d`, if it is an open move out of a
      cell that `g2` has visited and `g` had not, into a cell still
      unvisited, ends at `e`. */
  ghost predicate LeadsFrom(g: Grid, g2: Grid, rows: int, cols: int, p: Pos, d: Direction, e: Pos)
    requires WellFormed(g, rows, cols) && WellFormed(g2, rows, cols)
  {
    (OpenMove(g2, rows, cols, p, d) && At(g2, p).visited && !At(g, p).visited
     && !At(g2, Step(p, d)).visited) ==> Step(p, d) == e
  }

  /** Every open move out of a cell that `g2` has visited and `g` had not,
      into a cell still unvisited, ends at `e`. */
  ghost predicate Leads(g: Grid, g2: Grid, rows: int, cols: int, e: Pos)
    requires WellFormed(g, rows, cols) && WellFormed(g2, rows, cols)
  {
    forall p, d :: LeadsFrom(g, g2, rows, cols, p, d, e)
  }

  /** One turn moves the end of every open move out of a left cell to `next`. */
  lemma StepLeads(g: Grid, g1: Grid, g2: Grid, rows: int, cols: int, cur: Pos, next: Pos)
    requires WellFormed(g, rows, cols) && WellFormed(g1, rows, cols) && WellFormed(g2, rows, cols)
    requires InBounds(rows, cols, cur) && Leads(g, g1, rows, cols, cur)
    requires AccessibleNeighbors(g1, rows, cols, cur) == [next]
    requires Stepped(g1, g2, rows, cols, cur, next)
    ensures Leads(g, g2, rows, cols, next)
  {
    forall p, d
      ensures LeadsFrom(g, g2, rows, cols, p, d, next)
    {
      if InBounds(rows, cols, p) {
        assert At(g1, p).walls == At(g2, p).walls;
        if p == cur {
          if OpenMove(g2, rows, cols, p, d) && !At(g2, Step(p, d)).visited {
            assert ForwardMove(g1, rows, cols, cur, d);
          }
        } else {
          assert LeadsFrom(g, g1, rows, cols, p, d, cur);
        }
      }
    }
  }

  /** `tm2` keeps every stamp of `tm` and stamps the cells it adds from `n` on. */
  ghost predicate StampsExtend(tm: map<Pos, nat>, tm2: map<Pos, nat>, n: nat) {
    && (forall p | p in tm :: p in tm2 && tm2[p] == tm[p])
    && (forall p | p in tm2 && p !in tm :: n <= tm2[p])
  }

  /** The stamps after walking `path`: each cell left gets the next number
      when it is marked visited for the first time. */
  ghost function WalkStamps(tm: map<Pos, nat>, n: nat, path: seq<Pos>): (map<Pos, nat>, nat)
    decreases |path|
  {
    if |path| <= 1 then (tm, n)
    else
      var (tc, nc) := WalkStamps(tm, n, path[..|path| - 1]);
      var cur := path[|path| - 2];
      if cur in tc then (tc, nc) else (tc[cur := nc], nc + 1)
  }

  /** The stamps after a step of the corridor: `cur` is stamped with the
      next number unless it was visited already. */
  lemma StepStamps(g1: Grid, g2: Grid, rows: int, cols: int, tm: map<Pos, nat>, n: nat,
                   tc: map<Pos, nat>, nc: nat, tc2: map<Pos, nat>, nc2: nat, cur: Pos, next: Pos)
    requires WellFormed(g1, rows, cols) && WellFormed(g2, rows, cols) && InBounds(rows, cols, cur)
    requires Stepped(g1, g2, rows, cols, cur, next) && Stamped(g1, rows, cols, tc, nc)
    requires StampsExtend(tm, tc, n) && n <= nc
    requires tc2 == (if cur in tc then tc else tc[cur := nc]) && nc2 == (if cur in tc then nc else nc + 1)
    ensures Stamped(g2, rows, cols, tc2, nc2) && StampsExtend(tm, tc2, n) && n <= nc2
  {
    if cur !in tc {
      assert cur !in tm;
    }
  }

  /** Linking `next` to `cur` and marking `cur` visited keeps the links
      sound, when `cur` is the start or linked itself. */
  lemma StepLinks(g1: Grid, g2: Grid, rows: int, cols: int, tc: map<Pos, nat>, nc: nat,
                  tc2: map<Pos, nat>, cur: Pos, next: Pos)
    requires WellFormed(g1, rows, cols) && WellFormed(g2, rows, cols)
    requires InBounds(rows, cols, cur) && InBounds(rows, cols, next) && next != cur
    requires Stepped(g1, g2, rows, cols, cur, next) && Stamped(g1, rows, cols, tc, nc)
    requires Linked(g1, rows, cols, tc) && tc2 == (if cur in tc then tc else tc[cur := nc])
    requires !At(g1, next).visited && Move(g1, rows, cols, cur, next)
    requires cur == Start || At(g1, cur).parent.Some?
    ensures Linked(g2, rows, cols, tc2)
  {
    forall p | InBounds(rows, cols, p) && p != Start && At(g2, p).parent.Some?
      ensures LinkOk(g2, rows, cols, tc2, p)
    {
      var u := At(g2, p).parent.value;
      if p == next {
        MoveOfSameWalls(g1, g2, rows, cols, cur, next);
      } else {
        assert LinkOk(g1, rows, cols, tc, p);
        MoveOfSameWalls(g1, g2, rows, cols, u, p);
      }
    }
  }

  /** A walk with its last turn taken off is a walk. */
  lemma WalkPrefix(g: Grid, rows: int, cols: int, grids: seq<Grid>, path: seq<Pos>)
    requires Walk(g, rows, cols, grids, path) && |path| > 1
    ensures Walk(g, rows, cols, grids[..|path| - 1], path[..|path| - 1])
  {
    var m := |path| - 1;
    forall t | 0 <= t < m - 1
      ensures WalkAt(rows, cols, grids[..m], path[..m], t)
    {
      assert WalkAt(rows, cols, grids, path, t);
    }
  }

  /** What a walk from `g` to `g2` along `path` does to the flags and
      links: nothing but flags and parents changed, the cells it left are
      visited, no parent link is lost, and the cell it stands on, if it got
      there by a move, is linked and still unvisited. */
  ghost predicate WalkMarks(g: Grid, g2: Grid, rows: int, cols: int, path: seq<Pos>) {
    && WellFormed(g, rows, cols) && WellFormed(g2, rows, cols)
    && Marked(g, g2, rows, cols) && NewVisits(g, g2, rows, cols, path)
    && (forall p | InBounds(rows, cols, p) && At(g, p).parent.Some? :: At(g2, p).parent.Some?)
    && (|path| > 1 ==> InBounds(rows, cols, path[|path| - 1])
                       && At(g2, path[|path| - 1]).parent.Some? && !At(g2, path[|path| - 1]).visited)
  }

  /** One turn of the loop keeps what WalkMarks says. */
  lemma TurnMarks(g: Grid, g1: Grid, g2: Grid, rows: int, cols: int, path: seq<Pos>, next: Pos)
    requires WalkMarks(g, g1, rows, cols, path)
    requires CorridorMove(g1, g2, rows, cols, path[|path| - 1], next)
    ensures WalkMarks(g, g2, rows, cols, path + [next])
  {
    var cur := path[|path| - 1];
    NextOfCorridor(g1, rows, cols, cur, next);
    StepMarked(g, g1, g2, rows, cols, cur, next);
    StepVisits(g, g1, g2, rows, cols, path, next);
    assert (path + [next])[|path|] == next;
  }

  /** The last turn of a walk keeps what WalkMarks says. */
  lemma StepMarks(g: Grid, rows: int, cols: int, grids: seq<Grid>, path: seq<Pos>)
    requires Walk(g, rows, cols, grids, path) && |path| > 1
    requires WalkMarks(g, grids[|path| - 2], rows, cols, path[..|path| - 1])
    ensures WalkMarks(g, grids[|path| - 1], rows, cols, path)
  {
    var m := |path| - 1;
    assert WalkAt(rows, cols, grids, path, m - 1);
    TurnMarks(g, grids[m - 1], grids[m], rows, cols, path[..m], path[m]);
    assert path[..m] + [path[m]] == path;
  }

  /** A walk that has not moved changed nothing. */
  lemma WalkMarksStart(g: Grid, rows: int, cols: int, path: seq<Pos>)
    requires WellFormed(g, rows, cols) && |path| == 1
    ensures WalkMarks(g, g, rows, cols, path)
  {
    assert path[..0] == [];
  }

  /** Every walk marks and links as WalkMarks says. */
  lemma {:induction false} WalkMarked(g: Grid, rows: int, cols: int, grids: seq<Grid>, path: seq<Pos>)
    requires WellFormed(g, rows, cols) && Walk(g, rows, cols, grids, path)
    ensures WalkMarks(g, grids[|path| - 1], rows, cols, path)
    decreases |path|
  {
    if |path| == 1 {
      WalkMarksStart(g, rows, cols, path);
    } else {
      var m := |path| - 1;
      WalkPrefix(g, rows, cols, grids, path);
      WalkMarked(g, rows, cols, grids[..m], path[..m]);
      StepMarks(g, rows, cols, grids, path);
    }
  }

  /** The last turn of a walk does not link the cell the walk started
      from: the cell it moves into is unvisited, and the first cell is
      visited once it is left. */
  lemma StepKeepsHead(g: Grid, rows: int, cols: int, grids: seq<Grid>, path: seq<Pos>)
    requires WellFormed(g, rows, cols) && Walk(g, rows, cols, grids, path) && |path| > 1
    requires InBounds(rows, cols, path[0])
    ensures WellFormed(grids[|path| - 2], rows, cols) && WellFormed(grids[|path| - 1], rows, cols)
    ensures At(grids[|path| - 1], path[0]).parent == At(grids[|path| - 2], path[0]).parent
  {
    var m := |path| - 1;
    assert WalkAt(rows, cols, grids, path, m - 1);
    NextOfCorridor(grids[m - 1], rows, cols, path[m - 1], path[m]);
    if m > 1 {
      WalkPrefix(g, rows, cols, grids, path);
      WalkLeavesHead(g, rows, cols, grids[..m], path[..m]);
    }
  }

  /** A walk that has moved has left its first cell visited. */
  lemma WalkLeavesHead(g: Grid, rows: int, cols: int, grids: seq<Grid>, path: seq<Pos>)
    requires WellFormed(g, rows, cols) && Walk(g, rows, cols, grids, path) && |path| > 1
    requires InBounds(rows, cols, path[0])
    ensures WellFormed(grids[|path| - 1], rows, cols) && At(grids[|path| - 1], path[0]).visited
  {
    WalkMarked(g, rows, cols, grids, path);
    assert path[0] in path[..|path| - 1];
  }

  /** A walk never links the cell it started from. */
  lemma {:induction false} WalkKeepsHead(g: Grid, rows: int, cols: int, grids: seq<Grid>, path: seq<Pos>)
    requires WellFormed(g, rows, cols) && Walk(g, rows, cols, grids, path) && InBounds(rows, cols, path[0])
    ensures WellFormed(grids[|path| - 1], rows, cols)
    ensures At(grids[|path| - 1], path[0]).parent == At(g, path[0]).parent
    decreases |path|
  {
    if |path| > 1 {
      WalkPrefix(g, rows, cols, grids, path);
      WalkKeepsHead(g, rows, cols, grids[..|path| - 1], path[..|path| - 1]);
      StepKeepsHead(g, rows, cols, grids, path);
    }
  }

  /** The last turn of a walk keeps Leads. */
  lemma StepLeadsOn(g: Grid, rows: int, cols: int, grids: seq<Grid>, path: seq<Pos>)
    requires WellFormed(g, rows, cols) && Walk(g, rows, cols, grids, path) && |path| > 1
    requires WellFormed(grids[|path| - 2], rows, cols)
    requires Leads(g, grids[|path| - 2], rows, cols, path[|path| - 2])
    ensures WellFormed(grids[|path| - 1], rows, cols)
    ensures Leads(g, grids[|path| - 1], rows, cols, path[|path| - 1])
  {
    var m := |path| - 1;
    assert WalkAt(rows, cols, grids, path, m - 1);
    StepLeads(g, grids[m - 1], grids[m], rows, cols, path[m - 1], path[m]);
  }

  /** Every open move out of a cell the walk left, into a cell still
      unvisited, leads to where the walk stands. */
  lemma {:induction false} WalkLeads(g: Grid, rows: int, cols: int, grids: seq<Grid>, path: seq<Pos>)
    requires WellFormed(g, rows, cols) && Walk(g, rows, cols, grids, path)
    ensures WellFormed(grids[|path| - 1], rows, cols)
    ensures Leads(g, grids[|path| - 1], rows, cols, path[|path| - 1])
    decreases |path|
  {
    if |path| > 1 {
      var m := |path| - 1;
      WalkPrefix(g, rows, cols, grids, path);
      WalkLeads(g, rows, cols, grids[..m], path[..m]);
      StepLeadsOn(g, rows, cols, grids, path);
    }
  }

  /** The last turn of a walk keeps the stamps exact. */
  lemma StepStampsOn(g: Grid, rows: int, cols: int, grids: seq<Grid>, path: seq<Pos>, tm: map<Pos, nat>, n: nat)
    requires Walk(g, rows, cols, grids, path) && |path| > 1 && WellFormed(grids[|path| - 2], rows, cols)
    requires Stamped(grids[|path| - 2], rows, cols, WalkStamps(tm, n, path[..|path| - 1]).0,
                     WalkStamps(tm, n, path[..|path| - 1]).1)
    requires StampsExtend(tm, WalkStamps(tm, n, path[..|path| - 1]).0, n) && n <= WalkStamps(tm, n, path[..|path| - 1]).1
    ensures WellFormed(grids[|path| - 1], rows, cols)
    ensures Stamped(grids[|path| - 1], rows, cols, WalkStamps(tm, n, path).0, WalkStamps(tm, n, path).1)
    ensures StampsExtend(tm, WalkStamps(tm, n, path).0, n) && n <= WalkStamps(tm, n, path).1
  {
    var m := |path| - 1;
    assert WalkAt(rows, cols, grids, path, m - 1);
    var st, st2 := WalkStamps(tm, n, path[..m]), WalkStamps(tm, n, path);
    StepStamps(grids[m - 1], grids[m], rows, cols, tm, n, st.0, st.1, st2.0, st2.1, path[m - 1], path[m]);
  }

  /** The stamps of the cells a walk leaves visited, numbered on from `n`,
      are exact, and keep every stamp that was there. */
  lemma {:induction false} WalkStamped(g: Grid, rows: int, cols: int, grids: seq<Grid>, path: seq<Pos>,
                                       tm: map<Pos, nat>, n: nat)
    requires WellFormed(g, rows, cols) && Walk(g, rows, cols, grids, path) && Stamped(g, rows, cols, tm, n)
    ensures WellFormed(grids[|path| - 1], rows, cols)
    ensures Stamped(grids[|path| - 1], rows, cols, WalkStamps(tm, n, path).0, WalkStamps(tm, n, path).1)
    ensures StampsExtend(tm, WalkStamps(tm, n, path).0, n) && n <= WalkStamps(tm, n, path).1
    decreases |path|
  {
    if |path| > 1 {
      var m := |path| - 1;
      WalkPrefix(g, rows, cols, grids, path);
      WalkStamped(g, rows, cols, grids[..m], path[..m], tm, n);
      StepStampsOn(g, rows, cols, grids, path, tm, n);
    }
  }

  /** The last turn of a walk keeps the links sound. */
  lemma StepLinksOn(g: Grid, rows: int, cols: int, grids: seq<Grid>, path: seq<Pos>, tm: map<Pos, nat>, n: nat)
    requires Walk(g, rows, cols, grids, path) && |path| > 1 && WellFormed(grids[|path| - 2], rows, cols)
    requires Stamped(grids[|path| - 2], rows, cols, WalkStamps(tm, n, path[..|path| - 1]).0,
                     WalkStamps(tm, n, path[..|path| - 1]).1)
    requires Linked(grids[|path| - 2], rows, cols, WalkStamps(tm, n, path[..|path| - 1]).0)
    requires InBounds(rows, cols, path[|path| - 2])
    requires path[|path| - 2] == Start || At(grids[|path| - 2], path[|path| - 2]).parent.Some?
    ensures WellFormed(grids[|path| - 1], rows, cols) && InBounds(rows, cols, path[|path| - 1])
    ensures Linked(grids[|path| - 1], rows, cols, WalkStamps(tm, n, path).0)
    ensures path[|path| - 1] == Start || At(grids[|path| - 1], path[|path| - 1]).parent.Some?
  {
    var m := |path| - 1;
    assert WalkAt(rows, cols, grids, path, m - 1);
    var st, st2 := WalkStamps(tm, n, path[..m]), WalkStamps(tm, n, path);
    NextOfCorridor(grids[m - 1], rows, cols, path[m - 1], path[m]);
    StepLinks(grids[m - 1], grids[m], rows, cols, st.0, st.1, st2.0, path[m - 1], path[m]);
  }

  /** A walk from a cell that is the start or linked keeps the parent
      links sound, and the cell it stands on is the start or linked. */
  lemma {:induction false} WalkLinked(g: Grid, rows: int, cols: int, grids: seq<Grid>, path: seq<Pos>,
                                      tm: map<Pos, nat>, n: nat)
    requires WellFormed(g, rows, cols) && Walk(g, rows, cols, grids, path) && InBounds(rows, cols, path[0])
    requires Stamped(g, rows, cols, tm, n) && Linked(g, rows, cols, tm)
    requires path[0] == Start || At(g, path[0]).parent.Some?
    ensures WellFormed(grids[|path| - 1], rows, cols) && InBounds(rows, cols, path[|path| - 1])
    ensures Linked(grids[|path| - 1], rows, cols, WalkStamps(tm, n, path).0)
    ensures path[|path| - 1] == Start || At(grids[|path| - 1], path[|path| - 1]).parent.Some?
    decreases |path|
  {
    if |path| > 1 {
      var m := |path| - 1;
      WalkPrefix(g, rows, cols, grids, path);
      WalkLinked(g, rows, cols, grids[..m], path[..m], tm, n);
      WalkStamped(g, rows, cols, grids[..m], path[..m], tm, n);
      StepLinksOn(g, rows, cols, grids, path, tm, n);
    }
  }

  /** A walk never leaves the goal behind: the loop stops there. */
  lemma WalkAvoidsGoal(g: Grid, rows: int, cols: int, grids: seq<Grid>, path: seq<Pos>)
    requires Walk(g, rows, cols, grids, path)
    ensures Goal(rows, cols) !in path[..|path| - 1]
  {
    forall t | 0 <= t < |path| - 1
      ensures path[t] != Goal(rows, cols)
    {
      assert WalkAt(rows, cols, grids, path, t);
    }
  }
}
