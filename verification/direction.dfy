/**
  The direction filter. The source keeps the last accepted arrow key in a
  function-static variable; here it is passed in as `last` and the direction
  moved is returned, which the caller stores as the new `last`.
 */
module Direction {
  import opened Geometry

  /** A raw key: one of the four arrow keys, or any other key code (including
      the "no key pressed" result of a timed-out read). */
  datatype Key = Arrow(dir: Dir) | Other(code: int)

  /** The key names a direction that does not reverse `last`. */
  predicate Accepts(last: Dir, key: Key)
  {
    key.Arrow? && key.dir != Opposite(last)
  }

  /**
    The direction the snake moves for `key` when the last accepted direction is
    `last`. A reversing arrow key and every non-arrow key re-enter the filter
    with `last` itself, which is always accepted, so the recursion is at most
    one call deep. The result is also the new value of `last`.
   */
  function ParseMove(last: Dir, key: Key): (r: Dir)
    ensures r != Opposite(last)
    ensures Accepts(last, key) ==> r == key.dir
    ensures !Accepts(last, key) ==> r == last
    decreases if Accepts(last, key) then 0 else 1
  {
    match key
    case Arrow(Up) => if last == Down then ParseMove(last, Arrow(last)) else Up
    case Arrow(Right) => if last == Left then ParseMove(last, Arrow(last)) else Right
    case Arrow(Down) => if last == Up then ParseMove(last, Arrow(last)) else Down
    case Arrow(Left) => if last == Right then ParseMove(last, Arrow(last)) else Left
    case Other(_) => ParseMove(last, Arrow(last))
  }

  /**
    How many times the filter re-enters itself for `key`: none for an accepted
    arrow key, exactly one otherwise. It follows the call structure of
    `ParseMove` and restates, as a count, the bound that `ParseMove`'s
    decreases measure already proves.
   */
  function Reentries(last: Dir, key: Key): (n: nat)
    ensures n <= 1
    ensures n == 0 <==> Accepts(last, key)
    decreases if Accepts(last, key) then 0 else 1
  {
    if Accepts(last, key) then 0 else 1 + Reentries(last, Arrow(last))
  }
}
