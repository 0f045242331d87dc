/**
  Fruit placement by rejection sampling. The C library's `rand()` is replaced
  by an explicit sequence of non-negative draws. Candidate number k (0 for the
  first, k for the k-th re-draw) is made from draws 2k and 2k+1, the column
  first and then the row. When the draws run out before a cell is settled,
  placement yields `None`.
 */
module Fruit {
  import opened Optional
  import opened Geometry

  /**
    A settled fruit cell, the draws left over, `clearFrom` and the number of
    re-draws. `clearFrom` is the index of the segment at which the last
    re-draw happened (0 when none did): the fruit is guaranteed to avoid the
    segments from `clearFrom` on, and only those.
   */
  datatype Placement = Placement(fruit: Pos, rest: seq<nat>, clearFrom: nat, redraws: nat)

  /** The cells a fruit can be drawn on: columns 1..w-3 and rows 1..h-3. */
  predicate InFruitRange(p: Pos, w: int, h: int)
  {
    1 <= p.x <= w - 3 && 1 <= p.y <= h - 3
  }

  /** The candidate cell made from a column draw `dx` and a row draw `dy`. */
  function Candidate(dx: nat, dy: nat, w: int, h: int): (p: Pos)
    requires w > 3 && h > 3
    ensures InFruitRange(p, w, h)
  {
    Pos(dx % (w - 3) + 1, dy % (h - 3) + 1)
  }

  /** Candidate number `k`: the cell made from draws 2k and 2k+1. */
  function CandidateAt(draws: seq<nat>, k: nat, w: int, h: int): Pos
    requires w > 3 && h > 3 && 2 * k + 2 <= |draws|
  {
    Candidate(draws[2 * k], draws[2 * k + 1], w, h)
  }

  /**
    The segment walk from segment `i` on with candidate number `k`: while the
    candidate sits on segment `i`, draw the next candidate and test segment
    `i` again; then move on to segment `i + 1`. Segments before `i` are never
    looked at again.
   */
  function Scan(body: seq<Pos>, i: nat, draws: seq<nat>, k: nat, clearFrom: nat, w: int, h: int): (r: Option<Placement>)
    requires w > 3 && h > 3 && 2 * k + 2 <= |draws|
    requires clearFrom <= i <= |body|
    requires forall j :: clearFrom <= j < i ==> body[j] != CandidateAt(draws, k, w, h)
    ensures r.Some? ==> && k <= r.value.redraws
                        && 2 * r.value.redraws + 2 <= |draws|
                        && r.value.fruit == CandidateAt(draws, r.value.redraws, w, h)
                        && r.value.rest == draws[2 * r.value.redraws + 2..]
    ensures r.Some? ==> forall j :: r.value.clearFrom <= j < |body| ==> body[j] != r.value.fruit
    ensures r.Some? && r.value.redraws == k ==> r.value.clearFrom == clearFrom
    ensures r.Some? && r.value.redraws > k ==>
              && i <= r.value.clearFrom < |body|
              && body[r.value.clearFrom] == CandidateAt(draws, r.value.redraws - 1, w, h)
    ensures r.None? ==> exists j :: i <= j < |body| && body[j] == CandidateAt(draws, (|draws| - 2) / 2, w, h)
    decreases |body| - i, |draws| - 2 * k
  {
    if i == |body| then Some(Placement(CandidateAt(draws, k, w, h), draws[2 * k + 2..], clearFrom, k))
    else if CandidateAt(draws, k, w, h) != body[i] then Scan(body, i + 1, draws, k, clearFrom, w, h)
    else if |draws| < 2 * k + 4 then None
    else Scan(body, i, draws, k + 1, i, w, h)
  }

  /**
    The source's placement: one candidate, then a single pass over the body
    re-drawing whenever the candidate sits on the segment being visited.
   */
  function CreateFruit(body: seq<Pos>, w: int, h: int, draws: seq<nat>): (r: Option<Placement>)
    requires w > 3 && h > 3
    ensures |draws| < 2 ==> r.None?
    ensures r.None? ==> |draws| < 2 || CandidateAt(draws, (|draws| - 2) / 2, w, h) in body
    ensures r.Some? ==> && 2 * r.value.redraws + 2 <= |draws|
                        && r.value.fruit == CandidateAt(draws, r.value.redraws, w, h)
                        && r.value.rest == draws[2 * r.value.redraws + 2..]
                        && InFruitRange(r.value.fruit, w, h)
    ensures r.Some? ==> forall j :: r.value.clearFrom <= j < |body| ==> body[j] != r.value.fruit
    ensures r.Some? && |body| >= 1 ==> r.value.clearFrom < |body| && r.value.fruit != body[|body| - 1]
    ensures r.Some? && r.value.redraws == 0 ==> r.value.clearFrom == 0 && r.value.fruit !in body
    ensures r.Some? && r.value.redraws > 0 ==>
              && r.value.clearFrom < |body|
              && body[r.value.clearFrom] == CandidateAt(draws, r.value.redraws - 1, w, h)
  {
    if |draws| < 2 then None
    else Scan(body, 0, draws, 0, 0, w, h)
  }

  /**
    A reference placement from candidate number `k` on that re-tests the whole
    body after every re-draw: the fruit is the first candidate on no segment.
   */
  function FreeFrom(body: seq<Pos>, draws: seq<nat>, k: nat, w: int, h: int): (r: Option<Placement>)
    requires w > 3 && h > 3
    ensures r.Some? ==> && k <= r.value.redraws
                        && 2 * r.value.redraws + 2 <= |draws|
                        && r.value.fruit == CandidateAt(draws, r.value.redraws, w, h)
                        && r.value.rest == draws[2 * r.value.redraws + 2..]
                        && r.value.fruit !in body
                        && r.value.clearFrom == 0
    ensures r.Some? ==> forall j :: k <= j < r.value.redraws ==> CandidateAt(draws, j, w, h) in body
    ensures r.None? ==> forall j :: k <= j && 2 * j + 2 <= |draws| ==> CandidateAt(draws, j, w, h) in body
    decreases |draws| - 2 * k
  {
    if |draws| < 2 * k + 2 then None
    else if CandidateAt(draws, k, w, h) !in body then
      Some(Placement(CandidateAt(draws, k, w, h), draws[2 * k + 2..], 0, k))
    else FreeFrom(body, draws, k + 1, w, h)
  }

  /** The reference placement from the first candidate on. */
  function CreateFruitFree(body: seq<Pos>, w: int, h: int, draws: seq<nat>): (r: Option<Placement>)
    requires w > 3 && h > 3
  {
    FreeFrom(body, draws, 0, w, h)
  }

  /** When the candidate avoids every segment still to be tested, the walk keeps it. */
  lemma {:induction false} ScanKeepsFreeCandidate(body: seq<Pos>, i: nat, draws: seq<nat>, k: nat, clearFrom: nat, w: int, h: int)
    requires w > 3 && h > 3 && 2 * k + 2 <= |draws|
    requires clearFrom <= i <= |body|
    requires forall j :: clearFrom <= j < |body| ==> body[j] != CandidateAt(draws, k, w, h)
    ensures Scan(body, i, draws, k, clearFrom, w, h)
         == Some(Placement(CandidateAt(draws, k, w, h), draws[2 * k + 2..], clearFrom, k))
    decreases |body| - i
  {
    if i < |body| {
      ScanKeepsFreeCandidate(body, i + 1, draws, k, clearFrom, w, h);
    }
  }

  /**
    The walk gives up only after rejecting every candidate from `k` on that
    the draws allow, each for sitting on a segment.
   */
  lemma {:induction false} ScanNoneAllOnBody(body: seq<Pos>, i: nat, draws: seq<nat>, k: nat, clearFrom: nat, w: int, h: int)
    requires w > 3 && h > 3 && 2 * k + 2 <= |draws|
    requires clearFrom <= i <= |body|
    requires forall j :: clearFrom <= j < i ==> body[j] != CandidateAt(draws, k, w, h)
    ensures Scan(body, i, draws, k, clearFrom, w, h).None? ==>
              forall j :: k <= j && 2 * j + 2 <= |draws| ==> CandidateAt(draws, j, w, h) in body
    decreases |body| - i, |draws| - 2 * k
  {
    if i == |body| {
    } else if CandidateAt(draws, k, w, h) != body[i] {
      ScanNoneAllOnBody(body, i + 1, draws, k, clearFrom, w, h);
    } else if |draws| < 2 * k + 4 {
    } else {
      ScanNoneAllOnBody(body, i, draws, k + 1, i, w, h);
    }
  }

  /**
    The source's placement fails only when every candidate the draws allow
    is on the snake, so it places a fruit whenever the reference does.
   */
  lemma CreateFruitNoneAllOnBody(body: seq<Pos>, w: int, h: int, draws: seq<nat>)
    requires w > 3 && h > 3
    ensures CreateFruit(body, w, h, draws).None? ==>
              forall j :: 0 <= j && 2 * j + 2 <= |draws| ==> CandidateAt(draws, j, w, h) in body
    ensures CreateFruitFree(body, w, h, draws).Some? ==> CreateFruit(body, w, h, draws).Some?
  {
    if |draws| >= 2 {
      ScanNoneAllOnBody(body, 0, draws, 0, 0, w, h);
    }
  }

  /**
    When the first candidate is off the snake, the source's placement and the
    reference placement agree, and the fruit avoids the whole body.
   */
  lemma FreeFirstDrawAgrees(body: seq<Pos>, w: int, h: int, draws: seq<nat>)
    requires w > 3 && h > 3 && |draws| >= 2
    requires CandidateAt(draws, 0, w, h) !in body
    ensures CreateFruit(body, w, h, draws) == CreateFruitFree(body, w, h, draws)
    ensures CreateFruit(body, w, h, draws) == Some(Placement(CandidateAt(draws, 0, w, h), draws[2..], 0, 0))
  {
    ScanKeepsFreeCandidate(body, 0, draws, 0, 0, w, h);
  }

  /**
    The source's placement can settle on the head: the first candidate misses
    the head, sits on the second segment, and its re-draw lands on the head,
    which is never tested again.
   */
  lemma FruitCanLandOnHead()
    ensures CreateFruit([Pos(1, 1), Pos(2, 1)], 5, 4, [1, 0, 0, 0])
         == Some(Placement(Pos(1, 1), [], 1, 1))
    ensures CreateFruitFree([Pos(1, 1), Pos(2, 1)], 5, 4, [1, 0, 0, 0]) == None
  {
    var draws: seq<nat> := [1, 0, 0, 0];
    assert CandidateAt(draws, 0, 5, 4) == Pos(2, 1);
    assert CandidateAt(draws, 1, 5, 4) == Pos(1, 1);
    assert draws[4..] == [];
  }
}
