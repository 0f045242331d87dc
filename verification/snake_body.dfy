/**
  The snake's body: a head-first sequence of cells. The source keeps it as a
  singly linked list of segments; here it is a `seq<Pos>` whose element 0 is
  the head and whose last element is the tail.
 */
module SnakeBody {
  import opened Geometry

  /** No two segments share a cell. */
  predicate Distinct(body: seq<Pos>)
  {
    forall i, j :: 0 <= i < j < |body| ==> body[i] != body[j]
  }

  /** Every segment lies in the playfield. */
  predicate AllInside(body: seq<Pos>, w: int, h: int)
  {
    forall i :: 0 <= i < |body| ==> InPlayfield(body[i], w, h)
  }

  /** Consecutive segments share an edge, so the body is one unbroken trail. */
  predicate Connected(body: seq<Pos>)
  {
    forall i :: 0 <= i < |body| - 1 ==> Adjacent(body[i], body[i + 1])
  }

  function Last(body: seq<Pos>): Pos
    requires |body| >= 1
  {
    body[|body| - 1]
  }

  /** The cell the head starts on: the middle of a `w` by `h` screen. */
  function Middle(w: nat, h: nat): Pos
  {
    Pos(w / 2, h / 2)
  }

  /** Appends a new tail segment at `pos`, walking past all existing segments. */
  function IncreaseSnake(body: seq<Pos>, pos: Pos): (r: seq<Pos>)
    ensures |r| == |body| + 1
    ensures r[..|body|] == body
    ensures r[|body|] == pos
  {
    body + [pos]
  }

  /**
    The starting snake: a head in the middle of the screen and, for every
    `count` from 1 below `size`, a segment `count` columns to its left, each
    appended with `IncreaseSnake`. A `size` below 1 still yields the head.
   */
  function CreateSnake(size: int, w: nat, h: nat): (r: seq<Pos>)
    ensures |r| == if size >= 1 then size else 1
    ensures forall i :: 0 <= i < |r| ==> r[i] == Pos(w / 2 - i, h / 2)
    decreases size
  {
    if size <= 1 then [Middle(w, h)]
    else IncreaseSnake(CreateSnake(size - 1, w, h), Pos(w / 2 - (size - 1), h / 2))
  }

  /** The starting snake is a straight horizontal line of distinct cells. */
  lemma CreateSnakeShape(size: int, w: nat, h: nat)
    ensures Distinct(CreateSnake(size, w, h))
    ensures Connected(CreateSnake(size, w, h))
  {
    var r := CreateSnake(size, w, h);
    forall i, j | 0 <= i < j < |r|
      ensures r[i] != r[j]
    {
      assert r[i].x == w / 2 - i && r[j].x == w / 2 - j;
    }
    forall i | 0 <= i < |r| - 1
      ensures Adjacent(r[i], r[i + 1])
    {
      assert r[i + 1].x - r[i].x == -1 && r[i + 1].y == r[i].y;
    }
  }

  /**
    The starting snake lies in the playfield exactly when its head and its
    leftmost (tail) cell do.
   */
  lemma CreateSnakeInside(size: int, w: nat, h: nat)
    requires size >= 1
    ensures AllInside(CreateSnake(size, w, h), w, h)
        <==> InPlayfield(Middle(w, h), w, h) && w / 2 - (size - 1) >= 1
  {
    var r := CreateSnake(size, w, h);
    if InPlayfield(Middle(w, h), w, h) && w / 2 - (size - 1) >= 1 {
      forall i | 0 <= i < |r|
        ensures InPlayfield(r[i], w, h)
      {
        assert r[i] == Pos(w / 2 - i, h / 2);
      }
    }
    if AllInside(r, w, h) {
      assert r[0] == Middle(w, h) && r[size - 1].x == w / 2 - (size - 1);
      assert InPlayfield(r[0], w, h) && InPlayfield(r[size - 1], w, h);
    }
  }
}
