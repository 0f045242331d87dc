/**
  The move resolver: one step of the snake in a given direction, with the
  border test, the self-collision test, growth on eating and the cell the
  renderer must erase.
 */
module Move {
  import opened Geometry
  import opened SnakeBody

  /**
    The result of one move. A dead snake's body is not described: the game
    ends and the body is discarded. `erased` is the cell handed to the erase
    routine: the vacated tail after a plain move, the fruit cell after eating.
   */
  datatype MoveResult = Dead | Fine(body: seq<Pos>, erased: Pos) | Eaten(body: seq<Pos>, erased: Pos)

  /** The head's cell after moving by `inc`. */
  function NewHead(body: seq<Pos>, inc: Pos): Pos
    requires |body| >= 1
  {
    Add(body[0], inc)
  }

  /**
    The move as a pure function of the snake, the fruit and the step `inc`
    on a `w` by `h` screen. The new head is compared with the cells the
    other segments held BEFORE the shift, the old tail among them.
   */
  function MoveSnake(body: seq<Pos>, fruit: Pos, inc: Pos, w: int, h: int): (r: MoveResult)
    requires |body| >= 1
    ensures r.Dead? <==> !InPlayfield(NewHead(body, inc), w, h)
                         || exists k :: 1 <= k < |body| && body[k] == NewHead(body, inc)
    ensures r.Eaten? <==> !r.Dead? && NewHead(body, inc) == fruit
    ensures r.Fine? ==> && |r.body| == |body|
                        && r.body[0] == NewHead(body, inc)
                        && (forall k :: 1 <= k < |body| ==> r.body[k] == body[k - 1])
                        && r.erased == Last(body)
    ensures r.Eaten? ==> && |r.body| == |body| + 1
                         && r.body[0] == NewHead(body, inc)
                         && (forall k :: 1 <= k <= |body| ==> r.body[k] == body[k - 1])
                         && r.erased == fruit
  {
    var head := NewHead(body, inc);
    if !InPlayfield(head, w, h) then Dead
    else if head in body[1..] then Dead
    else if head == fruit then Eaten(IncreaseSnake([head] + body[..|body| - 1], Last(body)), fruit)
    else Fine([head] + body[..|body| - 1], Last(body))
  }

  /**
    The move as the source performs it on its list of segments: move the head,
    test the border, then walk the remaining segments, each taking the cell
    its predecessor held, testing the head against the cell each one leaves.
    `shifted` counts the non-head segments moved before the walk stopped: none
    on a border death, up to and including the segment whose old cell the head
    hit on a self-collision, all of them otherwise.
   */
  method MoveSnakeWalk(body: seq<Pos>, fruit: Pos, inc: Pos, w: int, h: int) returns (r: MoveResult, shifted: nat)
    requires |body| >= 1
    ensures !InPlayfield(NewHead(body, inc), w, h) ==> shifted == 0
    ensures r.Dead? && InPlayfield(NewHead(body, inc), w, h) ==>
              && 1 <= shifted < |body|
              && body[shifted] == NewHead(body, inc)
              && forall k :: 1 <= k < shifted ==> body[k] != NewHead(body, inc)
    ensures !r.Dead? ==> shifted == |body| - 1
    ensures r == MoveSnake(body, fruit, inc, w, h)
  {
    var maxX, maxY := w - 1, h - 1;
    var last := body[0];
    var head := Pos(body[0].x + inc.x, body[0].y + inc.y);
    if head.x >= maxX || head.x < 1 || head.y >= maxY || head.y < 1 {
      return Dead, 0;
    }
    var parts := [head] + body[1..];
    var i := 1;
    while i < |parts|
      invariant 1 <= i <= |parts| == |body|
      invariant parts[0] == head
      invariant forall k :: 1 <= k < i ==> parts[k] == body[k - 1]
      invariant forall k :: i <= k < |parts| ==> parts[k] == body[k]
      invariant last == body[i - 1]
      invariant forall k :: 1 <= k < i ==> body[k] != head
    {
      var temp := parts[i];
      parts := parts[i := last];
      last := temp;
      if head == last {
        assert body[1..][i - 1] == head;
        return Dead, i;
      }
      i := i + 1;
    }
    assert head !in body[1..];
    assert parts == [head] + body[..|body| - 1];
    if head == fruit {
      parts := IncreaseSnake(parts, last);
      return Eaten(parts, fruit), i - 1;
    }
    return Fine(parts, last), i - 1;
  }

  /**
    A unit step that does not kill the snake keeps its segments pairwise
    distinct: the new head is neither the old head nor any cell the other
    segments held.
   */
  lemma MoveKeepsDistinct(body: seq<Pos>, fruit: Pos, inc: Pos, w: int, h: int)
    requires |body| >= 1 && Distinct(body) && IsUnit(inc)
    ensures !MoveSnake(body, fruit, inc, w, h).Dead? ==> Distinct(MoveSnake(body, fruit, inc, w, h).body)
  {
    var head := NewHead(body, inc);
    var r := MoveSnake(body, fruit, inc, w, h);
    if !r.Dead? {
      assert head != body[0];
      assert forall k :: 1 <= k < |body| ==> body[k] == body[1..][k - 1];
      var b := [head] + body;
      forall i, j | 0 <= i < j < |b|
        ensures b[i] != b[j]
      {
        if i > 0 {
          assert b[i] == body[i - 1] && b[j] == body[j - 1];
        }
      }
      assert r.body == b || r.body == b[..|body|];
    }
  }

  /** A move that does not kill the snake keeps every segment in the playfield. */
  lemma MoveKeepsInside(body: seq<Pos>, fruit: Pos, inc: Pos, w: int, h: int)
    requires |body| >= 1 && AllInside(body, w, h)
    ensures !MoveSnake(body, fruit, inc, w, h).Dead? ==> AllInside(MoveSnake(body, fruit, inc, w, h).body, w, h)
  {
    var r := MoveSnake(body, fruit, inc, w, h);
    if !r.Dead? {
      var b := [NewHead(body, inc)] + body;
      forall i | 0 <= i < |b|
        ensures InPlayfield(b[i], w, h)
      {
        if i > 0 {
          assert b[i] == body[i - 1];
        }
      }
      assert r.body == b || r.body == b[..|body|];
    }
  }

  /** A unit step that does not kill the snake keeps its body an unbroken trail. */
  lemma MoveKeepsConnected(body: seq<Pos>, fruit: Pos, inc: Pos, w: int, h: int)
    requires |body| >= 1 && Connected(body) && IsUnit(inc)
    ensures !MoveSnake(body, fruit, inc, w, h).Dead? ==> Connected(MoveSnake(body, fruit, inc, w, h).body)
  {
    var r := MoveSnake(body, fruit, inc, w, h);
    if !r.Dead? {
      var b := [NewHead(body, inc)] + body;
      forall i | 0 <= i < |b| - 1
        ensures Adjacent(b[i], b[i + 1])
      {
        if i > 0 {
          assert b[i] == body[i - 1] && b[i + 1] == body[i];
        }
      }
      assert r.body == b || r.body == b[..|body|];
    }
  }

  /**
    Moving into the cell the tail is about to vacate is fatal, because the new
    head is compared with each segment's cell from before the shift.
   */
  lemma TailCellIsFatal(body: seq<Pos>, fruit: Pos, inc: Pos, w: int, h: int)
    requires |body| >= 2 && NewHead(body, inc) == Last(body)
    ensures MoveSnake(body, fruit, inc, w, h).Dead?
  {
    assert body[1..][|body| - 2] == Last(body);
  }

  /**
    A length-4 snake coiled into a 2x2 square, turning into its own tail,
    dies, though its tail would have moved away in the same step.
   */
  lemma CoiledSnakeDies()
    ensures MoveSnake([Pos(2, 1), Pos(2, 2), Pos(1, 2), Pos(1, 1)], Pos(5, 5), Delta(Left), 10, 10) == Dead
  {
    TailCellIsFatal([Pos(2, 1), Pos(2, 2), Pos(1, 2), Pos(1, 1)], Pos(5, 5), Delta(Left), 10, 10);
  }

  /** A plain step right: the body shifts and the old tail is erased. */
  lemma StraightMove()
    ensures MoveSnake([Pos(5, 5), Pos(4, 5), Pos(3, 5)], Pos(1, 1), Delta(Right), 20, 20)
         == Fine([Pos(6, 5), Pos(5, 5), Pos(4, 5)], Pos(3, 5))
  {
  }

  /** Stepping onto the fruit keeps the old tail and erases the fruit cell. */
  lemma EatFruit()
    ensures MoveSnake([Pos(5, 5), Pos(4, 5), Pos(3, 5)], Pos(6, 5), Delta(Right), 20, 20)
         == Eaten([Pos(6, 5), Pos(5, 5), Pos(4, 5), Pos(3, 5)], Pos(6, 5))
  {
  }
}
