/**
  Grid geometry of the snake game: cells, the four directions a snake can
  move in, and the playfield, which is the screen minus a one-cell border.
 */
module Geometry {

  /** A screen cell; x is the column and y the row. */
  datatype Pos = Pos(x: int, y: int)

  /** The four arrow directions. */
  datatype Dir = Up | Down | Left | Right

  function Add(p: Pos, d: Pos): Pos
  {
    Pos(p.x + d.x, p.y + d.y)
  }

  /** The step one move in direction `d` adds to the head. */
  function Delta(d: Dir): (r: Pos)
    ensures IsUnit(r)
  {
    match d
    case Up => Pos(0, -1)
    case Right => Pos(1, 0)
    case Down => Pos(0, 1)
    case Left => Pos(-1, 0)
  }

  function Opposite(d: Dir): Dir
  {
    match d
    case Up => Down
    case Down => Up
    case Left => Right
    case Right => Left
  }

  /** `Opposite` is the geometric opposite: its delta is the negated delta. */
  lemma DeltaOfOpposite(d: Dir)
    ensures Delta(Opposite(d)) == Pos(-Delta(d).x, -Delta(d).y)
    ensures Opposite(d) != d && Opposite(Opposite(d)) == d
  {
  }

  /** A step of exactly one cell along one axis. */
  predicate IsUnit(d: Pos)
  {
    (d.x == 0 && (d.y == 1 || d.y == -1)) || (d.y == 0 && (d.x == 1 || d.x == -1))
  }

  /** Two cells that share an edge. */
  predicate Adjacent(a: Pos, b: Pos)
  {
    IsUnit(Pos(b.x - a.x, b.y - a.y))
  }

  /**
    The cells a snake segment may occupy on a screen `w` columns wide and
    `h` rows high: column 0, row 0, column w-1 and row h-1 are the border.
   */
  predicate InPlayfield(p: Pos, w: int, h: int)
  {
    1 <= p.x <= w - 2 && 1 <= p.y <= h - 2
  }
}
