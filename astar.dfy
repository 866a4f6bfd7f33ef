/** The invariants of a_star in src/maze.py and the lemmas that carry them
    across one round: the heap of (f, row, column) entries, the cells it
    queues, and the corridor walks that jump from a neighbour to the next
    branching cell. */
module MazeAStar {
  import opened Cell
  import opened MazeGrid
  import opened MazeGraph
  import opened MazeSearch
  import opened MazeFrontier
  import opened PriorityQueue

  /** The cell a heap entry names. */
  function EntryPos(e: Entry): Pos {
    (e.i, e.j)
  }

  /** The cells the heap holds an entry for. */
  ghost function Queued(h: multiset<Entry>): set<Pos> {
    set e | e in h :: EntryPos(e)
  }

  /** Every heap entry names a cell of the grid. */
  ghost predicate HeapInGrid(rows: int, cols: int, h: multiset<Entry>) {
    forall e | e in h :: InBounds(rows, cols, EntryPos(e))
  }

  /** Every queued cell has a finite g score and, but for the start, a parent. */
  ghost predicate HeapPending(g: Grid, rows: int, cols: int, h: multiset<Entry>)
    requires WellFormed(g, rows, cols)
  {
    forall e | e in h && InBounds(rows, cols, EntryPos(e)) ::
      At(g, EntryPos(e)).g.Fin? && (EntryPos(e) != Start ==> At(g, EntryPos(e)).parent.Some?)
  }

  /** Every unvisited cell with a finite f score is queued. */
  ghost predicate Heaped(g: Grid, rows: int, cols: int, h: multiset<Entry>)
    requires WellFormed(g, rows, cols)
  {
    forall p | InBounds(rows, cols, p) && !At(g, p).visited && At(g, p).f.Fin? :: p in Queued(h)
  }

  /** Every open move out of a visited cell into an unvisited one ends at a
      cell that has a finite f score, or at a cell of `ex` still to be
      explored. */
  ghost predicate Fringe(g: Grid, rows: int, cols: int, ex: seq<Pos>)
    requires WellFormed(g, rows, cols)
  {
    forall p, d | OpenMove(g, rows, cols, p, d) && At(g, p).visited && !At(g, Step(p, d)).visited ::
      Step(p, d) in ex || At(g, Step(p, d)).f.Fin?
  }

  /** Unless the start is the goal, the goal is neither visited nor queued. */
  ghost predicate GoalAhead(g: Grid, rows: int, cols: int, h: multiset<Entry>)
    requires WellFormed(g, rows, cols)
  {
    Start != Goal(rows, cols) ==>
      && InBounds(rows, cols, Goal(rows, cols)) && !At(g, Goal(rows, cols)).visited
      && Goal(rows, cols) !in Queued(h)
  }

  /** What every round of a_star keeps on any grid. */
  ghost predicate AStarFrame(g0: Grid, g: Grid, rows: int, cols: int, h: multiset<Entry>,
                             tm: map<Pos, nat>, n: nat) {
    && rows > 0 && cols > 0 && Layout(g0, g, rows, cols)
    && Stamped(g, rows, cols, tm, n) && HeapInGrid(rows, cols, h)
  }

  /** What the loop of a_star keeps on a reset grid: sound links, every
      queued cell scored, every unvisited cell with an f score queued,
      every move out of the visited cells ending at such a cell, the start
      visited or queued, and the goal ahead. */
  ghost predicate AStarInv(g: Grid, rows: int, cols: int, h: multiset<Entry>, tm: map<Pos, nat>)
    requires WellFormed(g, rows, cols)
  {
    && Linked(g, rows, cols, tm) && HeapPending(g, rows, cols, h) && Heaped(g, rows, cols, h)
    && Fringe(g, rows, cols, []) && (Start in tm || Start in Queued(h)) && GoalAhead(g, rows, cols, h)
  }

  /** What the loop over the accessible neighbours of the expanded cell `c`
      keeps: the invariant of a_star, with the neighbours `ex` still to
      relax excused from the fringe, and `c` stamped and scored. */
  ghost predicate ExpandInv(g: Grid, rows: int, cols: int, h: multiset<Entry>, tm: map<Pos, nat>,
                            c: Pos, ex: seq<Pos>)
    requires WellFormed(g, rows, cols)
  {
    && Linked(g, rows, cols, tm) && HeapPending(g, rows, cols, h) && Heaped(g, rows, cols, h)
    && Fringe(g, rows, cols, ex) && (Start in tm || Start in Queued(h)) && GoalAhead(g, rows, cols, h)
    && InBounds(rows, cols, c) && c in tm && At(g, c).g.Fin?
  }

  /** Every cell stamped since `tm` was stamped after `c`. */
  ghost predicate LaterStamps(tc: map<Pos, nat>, tm: map<Pos, nat>, c: Pos) {
    c in tc && forall p | p in tc && p !in tm :: tc[c] < tc[p]
  }

  /** From `g` to `g2` only scores changed. */
  ghost predicate Rescored(g: Grid, g2: Grid, rows: int, cols: int)
    requires WellFormed(g, rows, cols) && WellFormed(g2, rows, cols)
  {
    forall p | InBounds(rows, cols, p) ::
      SameFrame(At(g, p), At(g2, p)) && At(g2, p).visited == At(g, p).visited
      && At(g2, p).parent == At(g, p).parent
  }

  /** In a grid of one cell the start is the goal; otherwise two cells of
      the grid can differ. */
  lemma OneCell(rows: int, cols: int, p: Pos, q: Pos)
    requires InBounds(rows, cols, p) && InBounds(rows, cols, q) && p != q
    ensures Start != Goal(rows, cols)
  {
  }

  /** In a grid of one cell the goal is reached by the one-cell path, so
      a search that reports failure there is wrong. */
  lemma OneCellPath(g: Grid)
    requires WellFormed(g, 1, 1)
    ensures Start == Goal(1, 1) && IsPath(g, 1, 1, [Start])
  {
  }

  /** Changing scores only keeps the layout, the stamps and the links. */
  lemma RescoredKeeps(g0: Grid, g: Grid, g2: Grid, rows: int, cols: int, tm: map<Pos, nat>, n: nat)
    requires Layout(g0, g, rows, cols) && WellFormed(g2, rows, cols) && Rescored(g, g2, rows, cols)
    requires Stamped(g, rows, cols, tm, n)
    ensures Layout(g0, g2, rows, cols) && Stamped(g2, rows, cols, tm, n)
    ensures Linked(g, rows, cols, tm) ==> Linked(g2, rows, cols, tm)
  {
    if Linked(g, rows, cols, tm) {
      forall p | InBounds(rows, cols, p) && p != Start && At(g2, p).parent.Some?
        ensures LinkOk(g2, rows, cols, tm, p)
      {
        assert LinkOk(g, rows, cols, tm, p);
        var u := At(g, p).parent.value;
        MoveOfSameWalls(g, g2, rows, cols, u, p);
      }
    }
  }

  /** Setting the g or f score of one cell is a rescoring. */
  lemma SetScoreEffect(g: Grid, rows: int, cols: int, p: Pos, s: Score, onF: bool)
    requires WellFormed(g, rows, cols) && InBounds(rows, cols, p)
    ensures var g2 := if onF then SetF(g, p, s) else SetG(g, p, s);
      && WellFormed(g2, rows, cols) && Rescored(g, g2, rows, cols)
      && (forall r | InBounds(rows, cols, r) && r != p :: At(g2, r).g == At(g, r).g && At(g2, r).f == At(g, r).f)
      && (if onF then At(g2, p).f == s && At(g2, p).g == At(g, p).g
          else At(g2, p).g == s && At(g2, p).f == At(g, p).f)
  {
    if onF {
      UpdateEffect(g, rows, cols, p, At(g, p).(f := s));
    } else {
      UpdateEffect(g, rows, cols, p, At(g, p).(g := s));
    }
  }

  /** Before the loop of a_star: the start scored and queued alone. */
  lemma AStarStart(g0: Grid, g: Grid, rows: int, cols: int, tm: map<Pos, nat>, f: int)
    requires WellFormed(g0, rows, cols) && rows > 0 && cols > 0
    requires g == SetF(SetG(g0, Start, Fin(1)), Start, Fin(f)) && tm == InitialStamps(g0, rows, cols)
    ensures AStarFrame(g0, g, rows, cols, multiset{Entry(f, 0, 0)}, tm, 1)
    ensures GridCleared(g0) ==> AStarInv(g, rows, cols, multiset{Entry(f, 0, 0)}, tm)
  {
    var g1 := SetG(g0, Start, Fin(1));
    SetScoreEffect(g0, rows, cols, Start, Fin(1), false);
    SetScoreEffect(g1, rows, cols, Start, Fin(f), true);
    assert Layout(g0, g0, rows, cols);
    RescoredKeeps(g0, g0, g1, rows, cols, tm, 1);
    RescoredKeeps(g0, g1, g, rows, cols, tm, 1);
    var h := multiset{Entry(f, 0, 0)};
    assert Queued(h) == {Start} by {
      assert EntryPos(Entry(f, 0, 0)) == Start;
    }
    if GridCleared(g0) {
      assert tm == map[];
      forall p | InBounds(rows, cols, p)
        ensures !At(g, p).visited && At(g, p).parent == None
        ensures p != Start ==> At(g, p).f == Inf
      {
      }
    }
  }

  /** A popped entry whose cell is visited already is dropped. */
  lemma AStarSkip(g: Grid, rows: int, cols: int, h: multiset<Entry>, tm: map<Pos, nat>, n: nat, x: Entry)
    requires WellFormed(g, rows, cols) && Stamped(g, rows, cols, tm, n)
    requires AStarInv(g, rows, cols, h, tm) && x in h
    requires InBounds(rows, cols, EntryPos(x)) && At(g, EntryPos(x)).visited
    ensures AStarInv(g, rows, cols, h - multiset{x}, tm)
  {
    var h2 := h - multiset{x};
    forall p | InBounds(rows, cols, p) && !At(g, p).visited && At(g, p).f.Fin?
      ensures p in Queued(h2)
    {
      var e :| e in h && EntryPos(e) == p;
      assert e != x;
      assert e in h2;
    }
    assert Queued(h2) <= Queued(h);
  }

  /** Marking the popped cell `c` visited and stamping it opens the loop
      over its accessible neighbours. */
  lemma AStarVisitStart(g: Grid, g1: Grid, rows: int, cols: int, h: multiset<Entry>, tm: map<Pos, nat>,
                        tm1: map<Pos, nat>, n: nat, x: Entry, ns: seq<Pos>)
    requires WellFormed(g, rows, cols) && Stamped(g, rows, cols, tm, n)
    requires AStarInv(g, rows, cols, h, tm) && x in h
    requires InBounds(rows, cols, EntryPos(x)) && !At(g, EntryPos(x)).visited
    requires g1 == SetVisited(g, EntryPos(x)) && tm1 == tm[EntryPos(x) := n]
    requires ns == AccessibleNeighbors(g1, rows, cols, EntryPos(x))
    ensures WellFormed(g1, rows, cols)
    ensures ExpandInv(g1, rows, cols, h - multiset{x}, tm1, EntryPos(x), ns)
  {
    var c := EntryPos(x);
    var h2 := h - multiset{x};
    VisitEffect(g, g1, rows, cols, tm, tm1, n, c);
    LinksAfterVisit(g, g1, rows, cols, tm, tm1, n, c);
    forall p | InBounds(rows, cols, p) && !At(g1, p).visited && At(g1, p).f.Fin?
      ensures p in Queued(h2)
    {
      var e :| e in h && EntryPos(e) == p;
      assert e != x;
      assert e in h2;
    }
    VisitFringe(g, g1, rows, cols, c, ns);
    assert Queued(h2) <= Queued(h);
  }

  /** Once `c` is visited, the moves out of it end at its accessible
      neighbours. */
  lemma VisitFringe(g: Grid, g1: Grid, rows: int, cols: int, c: Pos, ns: seq<Pos>)
    requires WellFormed(g, rows, cols) && WellFormed(g1, rows, cols) && InBounds(rows, cols, c)
    requires FlagsOnly(g, g1, rows, cols) && VisitsOnly(g, g1, rows, cols, c)
    requires Fringe(g, rows, cols, []) && ns == AccessibleNeighbors(g1, rows, cols, c)
    ensures Fringe(g1, rows, cols, ns)
  {
    forall p, d | OpenMove(g1, rows, cols, p, d) && At(g1, p).visited && !At(g1, Step(p, d)).visited
      ensures Step(p, d) in ns || At(g1, Step(p, d)).f.Fin?
    {
      if p == c {
        assert ForwardMove(g1, rows, cols, c, d);
      } else {
        assert OpenMove(g, rows, cols, p, d);
      }
    }
  }

  /** From `g` to `g2` the parent of `q` became `c`; nothing else changed. */
  ghost predicate ParentSet(g: Grid, g2: Grid, rows: int, cols: int, q: Pos, c: Pos)
    requires WellFormed(g, rows, cols) && WellFormed(g2, rows, cols)
  {
    forall p | InBounds(rows, cols, p) ::
      && MarkOnly(At(g, p), At(g2, p)) && At(g2, p).visited == At(g, p).visited
      && At(g2, p).parent == if p == q then Some(c) else At(g, p).parent
  }

  /** Giving the neighbour `q` the parent `c` keeps the frame of a_star. */
  lemma RelinkFrame(g0: Grid, g: Grid, rows: int, cols: int, tc: map<Pos, nat>, nc: nat, c: Pos, q: Pos)
    requires Layout(g0, g, rows, cols) && Stamped(g, rows, cols, tc, nc) && InBounds(rows, cols, q)
    ensures var g2 := SetParent(g, q, c);
      && Layout(g0, g2, rows, cols) && Stamped(g2, rows, cols, tc, nc) && ParentSet(g, g2, rows, cols, q, c)
  {
    UpdateEffect(g, rows, cols, q, At(g, q).(parent := Some(c)));
  }

  /** Giving the neighbour `q` the parent `c` keeps the expansion invariant. */
  lemma RelinkOne(g: Grid, g2: Grid, rows: int, cols: int, h: multiset<Entry>, tc: map<Pos, nat>,
                  c: Pos, q: Pos, ex: seq<Pos>)
    requires WellFormed(g, rows, cols) && WellFormed(g2, rows, cols) && ParentSet(g, g2, rows, cols, q, c)
    requires ExpandInv(g, rows, cols, h, tc, c, [q] + ex) && Move(g, rows, cols, c, q)
    requires q in tc ==> tc[c] < tc[q]
    ensures ExpandInv(g2, rows, cols, h, tc, c, [q] + ex)
  {
    forall p | InBounds(rows, cols, p) && p != Start && At(g2, p).parent.Some?
      ensures LinkOk(g2, rows, cols, tc, p)
    {
      var u := At(g2, p).parent.value;
      MoveOfSameWalls(g, g2, rows, cols, u, p);
      if p != q {
        assert LinkOk(g, rows, cols, tc, p);
      }
    }
    forall p, d | OpenMove(g2, rows, cols, p, d) && At(g2, p).visited && !At(g2, Step(p, d)).visited
      ensures Step(p, d) in [q] + ex || At(g2, Step(p, d)).f.Fin?
    {
      assert OpenMove(g, rows, cols, p, d);
    }
    forall e | e in h && InBounds(rows, cols, EntryPos(e))
      ensures At(g2, EntryPos(e)).g.Fin? && (EntryPos(e) != Start ==> At(g2, EntryPos(e)).parent.Some?)
    {
    }
  }

  /** The corridor walk from the neighbour `q` to the branching cell `e`
      keeps the expansion invariant, with `e` now to be dealt with in
      place of `q`. */
  lemma CorridorKeeps(g: Grid, g2: Grid, rows: int, cols: int, h: multiset<Entry>, tc: map<Pos, nat>,
                      tc2: map<Pos, nat>, nc: nat, c: Pos, path: seq<Pos>, ex: seq<Pos>)
    requires WalkMarks(g, g2, rows, cols, path) && Leads(g, g2, rows, cols, path[|path| - 1])
    requires Linked(g2, rows, cols, tc2) && StampsExtend(tc, tc2, nc)
    requires Goal(rows, cols) !in path[..|path| - 1]
    requires ExpandInv(g, rows, cols, h, tc, c, [path[0]] + ex)
    ensures ExpandInv(g2, rows, cols, h, tc2, c, ex + [path[|path| - 1]])
  {
    var e := path[|path| - 1];
    forall p | InBounds(rows, cols, p) && !At(g2, p).visited && At(g2, p).f.Fin?
      ensures p in Queued(h)
    {
      assert MarkOnly(At(g, p), At(g2, p));
    }
    forall e' | e' in h && InBounds(rows, cols, EntryPos(e'))
      ensures At(g2, EntryPos(e')).g.Fin? && (EntryPos(e') != Start ==> At(g2, EntryPos(e')).parent.Some?)
    {
      assert MarkOnly(At(g, EntryPos(e')), At(g2, EntryPos(e')));
    }
    forall p, d | OpenMove(g2, rows, cols, p, d) && At(g2, p).visited && !At(g2, Step(p, d)).visited
      ensures Step(p, d) in ex + [e] || At(g2, Step(p, d)).f.Fin?
    {
      var r := Step(p, d);
      assert MarkOnly(At(g, p), At(g2, p)) && MarkOnly(At(g, r), At(g2, r));
      assert !At(g, r).visited;
      if At(g, p).visited {
        assert OpenMove(g, rows, cols, p, d);
        assert r !in path[..|path| - 1];
      } else {
        assert LeadsFrom(g, g2, rows, cols, p, d, e);
      }
    }
    assert MarkOnly(At(g, c), At(g2, c));
    if Start != Goal(rows, cols) {
      assert MarkOnly(At(g, Goal(rows, cols)), At(g2, Goal(rows, cols)));
    }
  }

  /** A branching cell `e` whose f score is finite, or that is visited,
      needs no heap entry: it leaves the excused cells. */
  lemma FringeDrop(g: Grid, rows: int, cols: int, h: multiset<Entry>, tc: map<Pos, nat>,
                   c: Pos, e: Pos, ex: seq<Pos>)
    requires WellFormed(g, rows, cols) && InBounds(rows, cols, e)
    requires ExpandInv(g, rows, cols, h, tc, c, ex + [e]) && At(g, e).f.Fin?
    ensures ExpandInv(g, rows, cols, h, tc, c, ex)
  {
  }

  /** Adding an entry queues its cell. */
  lemma QueuedAdd(h: multiset<Entry>, x: Entry)
    ensures Queued(h + multiset{x}) == Queued(h) + {EntryPos(x)}
  {
    var h2 := h + multiset{x};
    forall p | p in Queued(h2)
      ensures p in Queued(h) + {EntryPos(x)}
    {
      var y :| y in h2 && EntryPos(y) == p;
      if y != x {
        assert y in h;
      }
    }
    assert x in h2;
    forall p | p in Queued(h)
      ensures p in Queued(h2)
    {
      var y :| y in h && EntryPos(y) == p;
      assert y in h2;
    }
  }

  /** From `g` to `g2` the f score of `e` became `fs` and its g score `gs`;
      nothing else changed. */
  ghost predicate ScoredAt(g: Grid, g2: Grid, rows: int, cols: int, e: Pos, fs: int, gs: Score)
    requires WellFormed(g, rows, cols) && WellFormed(g2, rows, cols) && InBounds(rows, cols, e)
  {
    && Rescored(g, g2, rows, cols) && At(g2, e).f == Fin(fs) && At(g2, e).g == gs
    && forall r | InBounds(rows, cols, r) && r != e :: At(g2, r).g == At(g, r).g && At(g2, r).f == At(g, r).f
  }

  /** Recording the new scores of `e` keeps the frame of a_star. */
  lemma PushFrame(g0: Grid, g: Grid, rows: int, cols: int, h: multiset<Entry>, tc: map<Pos, nat>, nc: nat,
                  e: Pos, fs: int, gs: Score)
    requires AStarFrame(g0, g, rows, cols, h, tc, nc) && InBounds(rows, cols, e)
    ensures var g2 := SetG(SetF(g, e, Fin(fs)), e, gs);
      && WellFormed(g2, rows, cols) && ScoredAt(g, g2, rows, cols, e, fs, gs)
      && AStarFrame(g0, g2, rows, cols, h + multiset{Entry(fs, e.0, e.1)}, tc, nc)
      && (Linked(g, rows, cols, tc) ==> Linked(g2, rows, cols, tc))
  {
    var g1 := SetF(g, e, Fin(fs));
    var g2 := SetG(g1, e, gs);
    SetScoreEffect(g, rows, cols, e, Fin(fs), true);
    SetScoreEffect(g1, rows, cols, e, gs, false);
    RescoredKeeps(g0, g, g1, rows, cols, tc, nc);
    RescoredKeeps(g0, g1, g2, rows, cols, tc, nc);
    assert EntryPos(Entry(fs, e.0, e.1)) == e;
  }

  /** What a_star does with the cell `e` a corridor walk ended at, once
      its new g score `gs` is counted: when `gs` plus the h score of `e`
      is below its f score, an entry with that sum is pushed and `e` takes
      both scores; otherwise the heap and the scores of `e` stay. */
  ghost predicate PushedAt(g: Grid, g2: Grid, rows: int, cols: int, h: multiset<Entry>, h2: multiset<Entry>,
                           e: Pos, gs: Score)
    requires WellFormed(g, rows, cols) && WellFormed(g2, rows, cols)
  {
    && InBounds(rows, cols, e)
    && if gs.Fin? && Below(gs.value + At(g, e).h, At(g, e).f) then
         && h2 == h + multiset{Entry(gs.value + At(g, e).h, e.0, e.1)}
         && At(g2, e).g == gs && At(g2, e).f == Fin(gs.value + At(g, e).h)
       else
         h2 == h && At(g2, e).g == At(g, e).g && At(g2, e).f == At(g, e).f
  }

  /** The push of a_star: a lower f score is pushed and recorded on its
      cell with the g score it came from. */
  lemma PushedHere(g: Grid, g1: Grid, g2: Grid, rows: int, cols: int, h: multiset<Entry>, e: Pos, gs: Score)
    requires WellFormed(g, rows, cols) && WellFormed(g1, rows, cols) && WellFormed(g2, rows, cols)
    requires Marked(g, g1, rows, cols) && InBounds(rows, cols, e)
    requires gs.Fin? && Below(gs.value + At(g1, e).h, At(g1, e).f)
    requires ScoredAt(g1, g2, rows, cols, e, gs.value + At(g1, e).h, gs)
    ensures PushedAt(g, g2, rows, cols, h, h + multiset{Entry(gs.value + At(g1, e).h, e.0, e.1)}, e, gs)
  {
    assert MarkOnly(At(g, e), At(g1, e));
  }

  /** No push: an f score that is not lower leaves the heap and the cell. */
  lemma PushedNot(g: Grid, g1: Grid, rows: int, cols: int, h: multiset<Entry>, e: Pos, gs: Score)
    requires WellFormed(g, rows, cols) && WellFormed(g1, rows, cols)
    requires Marked(g, g1, rows, cols) && InBounds(rows, cols, e)
    requires !(Plus(gs, At(g1, e).h).Fin? && Below(Plus(gs, At(g1, e).h).value, At(g1, e).f))
    ensures PushedAt(g, g1, rows, cols, h, h, e, gs)
  {
    assert MarkOnly(At(g, e), At(g1, e));
  }

  /** Every entry of `h` names the start, as in the heap a_star starts
      with. */
  ghost predicate OnlyStart(h: multiset<Entry>) {
    forall x | x in h :: EntryPos(x) == Start
  }

  /** From `g` to `g2` the start stayed visited, or became so, and kept
      its scores. */
  ghost predicate StartKept(g: Grid, g2: Grid, rows: int, cols: int)
    requires WellFormed(g, rows, cols) && WellFormed(g2, rows, cols) && rows > 0 && cols > 0
  {
    At(g2, Start).visited && At(g2, Start).g == At(g, Start).g && At(g2, Start).f == At(g, Start).f
  }

  /** A popped entry whose cell is visited already: the start is visited
      when the heap held entries for the start only. */
  lemma SkipKeepsStart(g: Grid, rows: int, cols: int, h: multiset<Entry>, x: Entry)
    requires WellFormed(g, rows, cols) && rows > 0 && cols > 0 && x in h
    requires InBounds(rows, cols, EntryPos(x)) && At(g, EntryPos(x)).visited
    ensures (At(g, Start).visited || OnlyStart(h)) ==> StartKept(g, g, rows, cols)
  {
  }

  /** Marking the popped cell visited, then relaxing its neighbours
      without touching a visited start, keeps the start when it was
      visited or the heap held entries for the start only. */
  lemma VisitKeepsStart(g: Grid, g1: Grid, g2: Grid, rows: int, cols: int, h: multiset<Entry>, x: Entry)
    requires WellFormed(g, rows, cols) && WellFormed(g2, rows, cols) && rows > 0 && cols > 0 && x in h
    requires InBounds(rows, cols, EntryPos(x)) && g1 == SetVisited(g, EntryPos(x))
    requires WellFormed(g1, rows, cols) && (At(g1, Start).visited ==> StartKept(g1, g2, rows, cols))
    ensures (At(g, Start).visited || OnlyStart(h)) ==> StartKept(g, g2, rows, cols)
  {
    SetVisitedEffect(g, rows, cols, EntryPos(x));
  }

  /** Linking the neighbour `q` to `c` and walking its corridor changes
      flags and links only, leaves the walked cells visited, never links
      `q` again, and does not end at a start visited before. */
  lemma RelaxWalk(g: Grid, g3: Grid, g4: Grid, rows: int, cols: int, c: Pos, q: Pos,
                  grids: seq<Grid>, path: seq<Pos>)
    requires WellFormed(g, rows, cols) && InBounds(rows, cols, q) && g3 == SetParent(g, q, c)
    requires Walk(g3, rows, cols, grids, path) && path[0] == q && grids[|path| - 1] == g4
    requires WalkMarks(g3, g4, rows, cols, path)
    ensures WellFormed(g3, rows, cols) && Marked(g, g4, rows, cols) && NewVisits(g, g4, rows, cols, path)
    ensures At(g4, q).parent == Some(c)
    ensures At(g, Start).visited && q != Start ==> StartKept(g, g4, rows, cols) && path[|path| - 1] != Start
  {
    UpdateEffect(g, rows, cols, q, At(g, q).(parent := Some(c)));
    WalkKeepsHead(g3, rows, cols, grids, path);
    forall p | InBounds(rows, cols, p)
      ensures MarkOnly(At(g, p), At(g4, p))
    {
      assert MarkOnly(At(g3, p), At(g4, p));
    }
  }

  /** Linking the neighbour `q` to `c` and walking its corridor keeps the
      frame of a_star with the stamps of the walk and, on a reset grid,
      the expansion invariant with the end of the walk excused. */
  lemma RelaxWalked(g0: Grid, g: Grid, g3: Grid, g4: Grid, rows: int, cols: int, h: multiset<Entry>,
                    tc: map<Pos, nat>, nc: nat, c: Pos, q: Pos, grids: seq<Grid>, path: seq<Pos>, ex: seq<Pos>)
    requires AStarFrame(g0, g, rows, cols, h, tc, nc)
    requires InBounds(rows, cols, c) && InBounds(rows, cols, q) && q != c && Move(g, rows, cols, c, q)
    requires GridCleared(g0) ==> ExpandInv(g, rows, cols, h, tc, c, [q] + ex) && (q in tc ==> tc[c] < tc[q])
    requires g3 == SetParent(g, q, c) && Walk(g3, rows, cols, grids, path) && path[0] == q && grids[|path| - 1] == g4
    ensures var (tc2, nc2) := WalkStamps(tc, nc, path);
      && AStarFrame(g0, g4, rows, cols, h, tc2, nc2) && StampsExtend(tc, tc2, nc) && nc <= nc2
      && (GridCleared(g0) ==> ExpandInv(g4, rows, cols, h, tc2, c, ex + [path[|path| - 1]]))
    ensures WellFormed(g3, rows, cols) && WellFormed(g4, rows, cols) && InBounds(rows, cols, path[|path| - 1])
    ensures At(g3, c).g == At(g, c).g && Marked(g, g4, rows, cols) && NewVisits(g, g4, rows, cols, path)
    ensures At(g4, q).parent == Some(c) && At(g4, path[|path| - 1]).parent.Some?
    ensures At(g, Start).visited && q != Start ==> StartKept(g, g4, rows, cols) && path[|path| - 1] != Start
  {
    RelinkFrame(g0, g, rows, cols, tc, nc, c, q);
    if GridCleared(g0) {
      RelinkOne(g, g3, rows, cols, h, tc, c, q, ex);
    }
    WalkMarked(g3, rows, cols, grids, path);
    RelaxWalk(g, g3, g4, rows, cols, c, q, grids, path);
    WalkStamped(g3, rows, cols, grids, path, tc, nc);
    MarkedLayout(g0, g3, g4, rows, cols);
    var (tc2, nc2) := WalkStamps(tc, nc, path);
    if GridCleared(g0) {
      WalkLinked(g3, rows, cols, grids, path, tc, nc);
      WalkLeads(g3, rows, cols, grids, path);
      WalkAvoidsGoal(g3, rows, cols, grids, path);
      CorridorKeeps(g3, g4, rows, cols, h, tc, tc2, nc, c, path, ex);
    }
  }

  /** One relaxation of a_star from `c` through its neighbour `q`, as
      `walk` records it: the corridor walk starts at `q`, which is linked
      to `c`, and marks visited every cell it leaves; the search ends
      exactly when the walk ends at the goal, which then takes the g score
      of `c` plus the length of the walk, the heap unchanged; otherwise
      the end of the walk is pushed, or not, as PushedAt says, with that
      g score. */
  ghost predicate Relaxed(g: Grid, g2: Grid, rows: int, cols: int, h: multiset<Entry>, h2: multiset<Entry>,
                          c: Pos, q: Pos, walk: seq<Pos>, found: bool)
    requires WellFormed(g, rows, cols) && WellFormed(g2, rows, cols) && InBounds(rows, cols, c)
  {
    && |walk| > 0 && walk[0] == q && InBounds(rows, cols, q) && InBounds(rows, cols, walk[|walk| - 1])
    && NewVisits(g, g2, rows, cols, walk) && At(g2, q).parent == Some(c)
    && (found <==> walk[|walk| - 1] == Goal(rows, cols))
    && (found ==> h2 == h && At(g2, Goal(rows, cols)).g == Plus(At(g, c).g, |walk|))
    && (!found ==> PushedAt(g, g2, rows, cols, h, h2, walk[|walk| - 1], Plus(At(g, c).g, |walk|)))
  }

  /** Scoring the end `e` of a walk from `q`, as AStarBranch does, makes
      the relaxation Relaxed, and keeps the start as it was. */
  lemma RelaxDone(g: Grid, g1: Grid, g2: Grid, rows: int, cols: int, h: multiset<Entry>, h2: multiset<Entry>,
                  c: Pos, q: Pos, e: Pos, gs: Score, path: seq<Pos>, found: bool)
    requires WellFormed(g, rows, cols) && WellFormed(g1, rows, cols) && WellFormed(g2, rows, cols)
    requires InBounds(rows, cols, c) && InBounds(rows, cols, q) && InBounds(rows, cols, e)
    requires |path| > 0 && path[0] == q && path[|path| - 1] == e && gs == Plus(At(g, c).g, |path|)
    requires NewVisits(g, g1, rows, cols, path) && Rescored(g1, g2, rows, cols) && At(g1, q).parent == Some(c)
    requires forall r | InBounds(rows, cols, r) && r != e :: At(g2, r).g == At(g1, r).g && At(g2, r).f == At(g1, r).f
    requires found <==> e == Goal(rows, cols)
    requires found ==> h2 == h && At(g2, e).g == gs
    requires !found ==> PushedAt(g, g2, rows, cols, h, h2, e, gs)
    requires At(g, Start).visited && q != Start ==> StartKept(g, g1, rows, cols) && e != Start
    ensures Relaxed(g, g2, rows, cols, h, h2, c, q, path, found)
    ensures At(g, Start).visited && q != Start ==> StartKept(g, g2, rows, cols)
  {
  }

  /** Pushing `e` with its new f score and recording its new scores keeps
      the expansion invariant, and `e` leaves the excused cells. */
  lemma PushKeeps(g: Grid, g2: Grid, rows: int, cols: int, h: multiset<Entry>, tc: map<Pos, nat>,
                  c: Pos, e: Pos, ex: seq<Pos>, fs: int, gs: Score)
    requires WellFormed(g, rows, cols) && WellFormed(g2, rows, cols) && InBounds(rows, cols, e)
    requires ScoredAt(g, g2, rows, cols, e, fs, gs) && Linked(g2, rows, cols, tc)
    requires ExpandInv(g, rows, cols, h, tc, c, ex + [e]) && gs.Fin? && e != Goal(rows, cols)
    requires e == Start || At(g, e).parent.Some?
    ensures ExpandInv(g2, rows, cols, h + multiset{Entry(fs, e.0, e.1)}, tc, c, ex)
  {
    var x := Entry(fs, e.0, e.1);
    var h2 := h + multiset{x};
    assert EntryPos(x) == e;
    QueuedAdd(h, x);
    forall y | y in h2 && InBounds(rows, cols, EntryPos(y))
      ensures At(g2, EntryPos(y)).g.Fin? && (EntryPos(y) != Start ==> At(g2, EntryPos(y)).parent.Some?)
    {
      if y != x {
        assert y in h;
      }
    }
    forall p, d | OpenMove(g2, rows, cols, p, d) && At(g2, p).visited && !At(g2, Step(p, d)).visited
      ensures Step(p, d) in ex || At(g2, Step(p, d)).f.Fin?
    {
      assert OpenMove(g, rows, cols, p, d);
    }
  }

  /** Once the heap is empty, no open move leaves the visited cells. */
  lemma EmptyHeapEncloses(g: Grid, rows: int, cols: int, tm: map<Pos, nat>, n: nat)
    requires WellFormed(g, rows, cols) && Stamped(g, rows, cols, tm, n)
    requires AStarInv(g, rows, cols, multiset{}, tm)
    ensures Enclosed(g, rows, cols, []) && InBounds(rows, cols, Start) && At(g, Start).visited
  {
    assert Queued(multiset{}) == {};
  }

  /** Marking cells keeps the layout. */
  lemma MarkedLayout(g0: Grid, g: Grid, g2: Grid, rows: int, cols: int)
    requires Layout(g0, g, rows, cols) && WellFormed(g2, rows, cols) && Marked(g, g2, rows, cols)
    ensures Layout(g0, g2, rows, cols)
  {
    forall p | InBounds(rows, cols, p)
      ensures SameFrame(At(g0, p), At(g2, p))
    {
      assert MarkOnly(At(g, p), At(g2, p));
    }
  }

  /** Extended stamps stamp at least the cells stamped before. */
  lemma StampsGrow(tm: map<Pos, nat>, tm2: map<Pos, nat>, n: nat)
    requires StampsExtend(tm, tm2, n)
    ensures tm.Keys <= tm2.Keys && |tm.Keys| <= |tm2.Keys|
  {
    SubsetCard(tm.Keys, tm2.Keys);
  }

  /** Cells stamped after `c` stay stamped after it when the stamps are
      extended with numbers from `nc` on. */
  lemma LaterStampsKept(tm: map<Pos, nat>, tc: map<Pos, nat>, tc2: map<Pos, nat>, nc: nat, c: Pos)
    requires LaterStamps(tc, tm, c) && tc[c] < nc && StampsExtend(tc, tc2, nc)
    ensures LaterStamps(tc2, tm, c)
  {
  }

  /** A suffix is its first element followed by the rest. */
  lemma SuffixSplit(s: seq<Pos>, m: int)
    requires 0 <= m < |s|
    ensures [s[m]] + s[m + 1..] == s[m..]
  {
  }

  /** Stamps extended twice are extended once. */
  lemma StampsChain(a: map<Pos, nat>, b: map<Pos, nat>, c: map<Pos, nat>, n: nat, m: nat)
    requires StampsExtend(a, b, n) && StampsExtend(b, c, m) && n <= m
    ensures StampsExtend(a, c, n)
  {
  }
}
