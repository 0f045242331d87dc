/**
  The main loop's bookkeeping: the starting state, one tick (filter the key,
  move the snake, and on eating raise the score and place a new fruit), and a
  run of ticks over a sequence of keys.
 */
module Game {
  import opened Optional
  import opened Geometry
  import opened SnakeBody
  import opened Direction
  import opened Move
  import opened Fruit

  /** The snake's length when the game starts. */
  const StartLength := 3

  /**
    Everything that survives from one tick to the next: the body, the fruit,
    the score, the direction filter's last accepted direction, and the random
    draws not yet used.
   */
  datatype GameState = GameState(body: seq<Pos>, fruit: Pos, score: nat, last: Dir, draws: seq<nat>)

  /** How a tick ends: the game goes on, the snake died with the given score,
      or fruit placement ran out of draws. */
  datatype TickResult = Running(game: GameState) | Over(finalScore: nat) | OutOfDraws

  /** The invariant kept by play on a `w` by `h` screen. */
  predicate Valid(g: GameState, w: nat, h: nat)
  {
    && |g.body| == StartLength + g.score
    && Distinct(g.body)
    && AllInside(g.body, w, h)
    && Connected(g.body)
  }

  /** The starting state: a length-3 snake facing right and a first fruit. */
  function Start(w: nat, h: nat, draws: seq<nat>): (r: Option<GameState>)
    requires w > 3 && h > 3
    ensures r.Some? ==> && r.value.score == 0 && r.value.last == Right
                        && r.value.body == CreateSnake(StartLength, w, h)
                        && r.value.fruit != Last(r.value.body)
    ensures |draws| < 2 ==> r.None?
    ensures var p := CreateFruit(CreateSnake(StartLength, w, h), w, h, draws);
            && (r.Some? <==> p.Some?)
            && (r.Some? ==> r.value.fruit == p.value.fruit && r.value.draws == p.value.rest)
  {
    var body := CreateSnake(StartLength, w, h);
    match CreateFruit(body, w, h, draws)
    case None => None
    case Some(p) => Some(GameState(body, p.fruit, 0, Right, p.rest))
  }

  /** One tick of the main loop for the raw key `key`. */
  function Tick(g: GameState, key: Key, w: nat, h: nat): (r: TickResult)
    requires w > 3 && h > 3 && |g.body| >= 1
    ensures var m := MoveSnake(g.body, g.fruit, Delta(ParseMove(g.last, key)), w, h);
            && (r.Over? <==> m.Dead?)
            && (r.Over? ==> r.finalScore == g.score)
            && (r.OutOfDraws? <==> m.Eaten? && CreateFruit(m.body, w, h, g.draws).None?)
            && (r.Running? ==> r.game.body == m.body)
            && (r.Running? ==> (r.game.score == g.score + 1 <==> m.Eaten?))
            && (r.Running? && m.Fine? ==> r.game.score == g.score && r.game.fruit == g.fruit && r.game.draws == g.draws)
            && (r.Running? && m.Eaten? ==>
                  && CreateFruit(m.body, w, h, g.draws).Some?
                  && CreateFruit(m.body, w, h, g.draws).value.fruit == r.game.fruit
                  && CreateFruit(m.body, w, h, g.draws).value.rest == r.game.draws)
    ensures r.Running? ==> r.game.last == ParseMove(g.last, key) && r.game.last != Opposite(g.last)
    ensures r.Running? ==> && (r.game.score == g.score || r.game.score == g.score + 1)
                           && |r.game.body| - |g.body| == r.game.score - g.score
    ensures r.Running? && r.game.score == g.score + 1 ==> r.game.fruit != Last(r.game.body)
  {
    var dir := ParseMove(g.last, key);
    match MoveSnake(g.body, g.fruit, Delta(dir), w, h)
    case Dead => Over(g.score)
    case Fine(body, _) => Running(g.(body := body, last := dir))
    case Eaten(body, _) =>
      match CreateFruit(body, w, h, g.draws)
      case None => OutOfDraws
      case Some(p) => Running(GameState(body, p.fruit, g.score + 1, dir, p.rest))
  }

  /** The starting state is valid once the screen leaves room for the snake. */
  lemma StartValid(w: nat, h: nat, draws: seq<nat>)
    requires w >= 6 && h >= 4
    ensures Start(w, h, draws).Some? ==> Valid(Start(w, h, draws).value, w, h)
  {
    CreateSnakeShape(StartLength, w, h);
    CreateSnakeInside(StartLength, w, h);
  }

  /** A tick that keeps the game running keeps it valid. */
  lemma TickKeepsValid(g: GameState, key: Key, w: nat, h: nat)
    requires w > 3 && h > 3 && |g.body| >= 1
    ensures Valid(g, w, h) && Tick(g, key, w, h).Running? ==> Valid(Tick(g, key, w, h).game, w, h)
  {
    if Valid(g, w, h) {
      var inc := Delta(ParseMove(g.last, key));
      MoveKeepsDistinct(g.body, g.fruit, inc, w, h);
      MoveKeepsInside(g.body, g.fruit, inc, w, h);
      MoveKeepsConnected(g.body, g.fruit, inc, w, h);
    }
  }

  /**
    The main loop's repetition: one tick for each key in turn until the snake
    dies or the draws run out. The score never falls and the body grows by
    exactly the points gained. From a valid game, however many keys are
    played, a running game stays valid, so the snake is always three segments
    longer than the score.
   */
  function Run(g: GameState, keys: seq<Key>, w: nat, h: nat): (r: TickResult)
    requires w > 3 && h > 3 && |g.body| >= 1
    ensures r.Running? ==> r.game.score >= g.score && |r.game.body| - |g.body| == r.game.score - g.score
    ensures r.Running? && Valid(g, w, h) ==> Valid(r.game, w, h)
    ensures r.Running? && Valid(g, w, h) ==> |r.game.body| == StartLength + r.game.score
    ensures r.Over? ==> r.finalScore >= g.score
    ensures |keys| == 0 ==> r == Running(g)
    decreases |keys|
  {
    if |keys| == 0 then Running(g)
    else
      TickKeepsValid(g, keys[0], w, h);
      match Tick(g, keys[0], w, h)
      case Running(g') => Run(g', keys[1..], w, h)
      case other => other
  }
}
