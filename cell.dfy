/** The per-position record of the grid (src/cell.py): four walls, a
    visited flag, a parent link and the three search scores. */
module Cell {

  /** The four directions of the grid; a wall of a cell is named by one. */
  datatype Direction = Up | Down | Left | Right

  /** Every direction, as the enumeration lists them. */
  const AllDirections: set<Direction> := {Up, Down, Left, Right}

  datatype Option<T> = None | Some(value: T)

  /** A grid position (row, column). */
  type Pos = (int, int)

  /** A search score: a whole number of steps, or the floating-point infinity
      that marks "not reached yet". Every finite score the program computes is
      integral, so the float is modelled as an integer plus infinity. */
  datatype Score = Fin(value: int) | Inf

  /** `s + k` under IEEE semantics: infinity absorbs a finite addend. */
  function Plus(s: Score, k: int): (r: Score)
    ensures r.Inf? <==> s.Inf?
    ensures r.Fin? ==> r.value - k == s.value
  {
    match s
    case Inf => Inf
    case Fin(v) => Fin(v + k)
  }

  /** The comparison `v < s` between a finite value and a score. */
  predicate Below(v: int, s: Score) {
    s.Inf? || v < s.value
  }

  datatype Point = Point(x: int, y: int)

  /** A cell's state. `(x1, y1)` is the top-left corner of its box and
      `(x2, y2)` the bottom-right one; `walls[d]` is true while the wall
      in direction `d` stands. */
  datatype Cell = Cell(
    walls: map<Direction, bool>,
    x1: int, y1: int, x2: int, y2: int,
    visited: bool,
    parent: Option<Pos>,
    g: Score,
    h: int,
    f: Score)

  /** The walls map has exactly the four directions as keys. */
  predicate HasAllWalls(c: Cell) {
    forall d: Direction :: d in c.walls
  }

  /** The search fields are as a reset leaves them. */
  predicate SearchCleared(c: Cell) {
    !c.visited && c.parent == None && c.g == Inf && c.f == Inf
  }

  /** All four walls stand. */
  predicate AllWallsUp(c: Cell)
    requires HasAllWalls(c)
  {
    forall d: Direction :: c.walls[d]
  }

  /** A freshly constructed cell. */
  function NewCell(x1: int, y1: int, x2: int, y2: int): (c: Cell)
    ensures HasAllWalls(c) && AllWallsUp(c)
    ensures SearchCleared(c) && c.h == 0
    ensures c.x1 == x1 && c.y1 == y1 && c.x2 == x2 && c.y2 == y2
  {
    var walls := map[Up := true, Down := true, Left := true, Right := true];
    AllDirectionsListed(walls);
    Cell(walls, x1, y1, x2, y2, false, None, Inf, 0, Inf)
  }

  /** A map that names each of the four directions has all of them. */
  lemma AllDirectionsListed<V>(m: map<Direction, V>)
    requires Up in m && Down in m && Left in m && Right in m
    ensures forall d: Direction :: d in m
  {
    forall d: Direction
      ensures d in m
    {
      match d
      case Up =>
      case Down =>
      case Left =>
      case Right =>
    }
  }

  /** The centre of the cell's box, rounding towards the top-left
      (Python's `//` floors; with divisor 2 so does Dafny's `/`). */
  function Center(c: Cell): (p: Point)
    ensures 2 * p.x <= c.x1 + c.x2 < 2 * p.x + 2
    ensures 2 * p.y <= c.y1 + c.y2 < 2 * p.y + 2
    ensures c.x1 <= c.x2 ==> c.x1 <= p.x <= c.x2
    ensures c.y1 <= c.y2 ==> c.y1 <= p.y <= c.y2
  {
    Point((c.x1 + c.x2) / 2, (c.y1 + c.y2) / 2)
  }
}
