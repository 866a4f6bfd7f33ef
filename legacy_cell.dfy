/** The cell of the earlier top-level copy (cell.py): walls named by the
    strings "top", "bottom", "left" and "right", a visited flag and the
    corners of its box. */
module LegacyCell {
  import opened Cell

  /** The names of the four walls. */
  const WallNames: set<string> := {"top", "bottom", "left", "right"}

  /** `(x1, y1)` is the top-left corner of the box and `(x2, y2)` the
      bottom-right one; `walls[name]` is true while that wall stands. */
  datatype OldCell = OldCell(walls: map<string, bool>, x1: int, y1: int, x2: int, y2: int, visited: bool)

  /** A freshly constructed cell: four standing walls, unvisited. */
  function NewOldCell(x1: int, y1: int, x2: int, y2: int): (c: OldCell)
    ensures c.walls.Keys == WallNames && forall name | name in c.walls :: c.walls[name]
    ensures !c.visited && c.x1 == x1 && c.y1 == y1 && c.x2 == x2 && c.y2 == y2
  {
    OldCell(map["top" := true, "bottom" := true, "left" := true, "right" := true], x1, y1, x2, y2, false)
  }

  /** get_center: the midpoint of the box, rounded towards the top-left
      (Python's `//` floors; with divisor 2 so does Dafny's `/`). */
  function OldCenter(c: OldCell): (p: Point)
    ensures 2 * p.x <= c.x1 + c.x2 < 2 * p.x + 2
    ensures 2 * p.y <= c.y1 + c.y2 < 2 * p.y + 2
    ensures c.x1 <= c.x2 ==> c.x1 <= p.x <= c.x2
    ensures c.y1 <= c.y2 ==> c.y1 <= p.y <= c.y2
  {
    Point((c.x1 + c.x2) / 2, (c.y1 + c.y2) / 2)
  }

  /** The rounding bounds determine the centre: it is the only point within
      them. */
  lemma OldCenterUnique(c: OldCell, p: Point)
    requires 2 * p.x <= c.x1 + c.x2 < 2 * p.x + 2
    requires 2 * p.y <= c.y1 + c.y2 < 2 * p.y + 2
    ensures p == OldCenter(c)
  {
  }

  /** Both versions of the cell put the centre at the same point. */
  lemma CentersAgree(c: OldCell, d: Cell)
    requires c.x1 == d.x1 && c.y1 == d.y1 && c.x2 == d.x2 && c.y2 == d.y2
    ensures OldCenter(c) == Center(d)
  {
    OldCenterUnique(c, Center(d));
  }
}
