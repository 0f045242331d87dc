# Snake game engine, modelled in Dafny

This project models the game-state engine of a terminal snake game written in
C (`snake.c`). The engine is:

- the **snake body**: a head-first list of cells, created in the middle of the
  screen (`createSnake`) and grown at the tail (`increaseSnake`);
- the **direction filter** (`parseMove`): a raw key becomes a step, and a key
  that would reverse the last accepted arrow direction is refused;
- the **move resolver** (`moveSnake`): it moves the head and tests the border.
  It then shifts the body while testing for self-collision, handles eating,
  and reports `SNAKE_IS_FINE`, `SNAKE_IS_DEAD` or `SNAKE_HAS_EATEN` together
  with the cell to erase;
- **fruit placement** (`createFruit`): rejection sampling over `rand()`;
- the **main loop's bookkeeping**: the score rises by one per eaten fruit and a
  new fruit is placed.

The snake is a `seq<Pos>` instead of a linked list. `rand()` is replaced by an
explicit sequence of non-negative draws. The screen size is passed in as `w`
(columns) by `h` (rows). The static `last` key of `parseMove` is passed in and
returned. Raw keys are `Arrow(dir)` or `Other(code)`.

Modules: `Optional` (Option), `Geometry` (cells, directions, playfield),
`SnakeBody`, `Direction`, `Move`, `Fruit`, `Game`.

Two behaviours of the code are not what a reader might assume, and the model
follows the code:

- **Self-collision uses pre-shift cells.** The new head is compared with the
  cell each other segment held *before* the shift (`snake.c:227-232`). Moving
  into the cell the tail is vacating is therefore fatal (`Move.TailCellIsFatal`,
  `Move.CoiledSnakeDies`). A test against the post-shift body would allow that
  move.
- **The fruit may land on the snake.** One might expect the fruit never to be
  on the snake. Placement re-draws until the candidate is off the
  current segment, then goes on with the next one and never re-tests the
  earlier ones (`snake.c:140-147`). The fruit is only guaranteed to avoid the segments from the last re-draw on,
  the tail among them (`Fruit.CreateFruit`). `Fruit.FruitCanLandOnHead` shows a
  fruit settling on the head. `Fruit.FreeFrom` (`Fruit.CreateFruitFree` from
  the first candidate) is a reference placement that re-tests the whole body. `Fruit.FreeFirstDrawAgrees` shows the two agree
  when the first candidate is free. The game loop uses the code's placement.

Fruit is also drawn only in columns `1..w-3` and rows `1..h-3`
(`snake.c:131-138`). The snake can reach column `w-2` and row `h-2`, but a
fruit never appears there.

## Model

| member | source | states |
|---|---|---|
| Geometry.Delta | snake.c:185-200 | each arrow key moves the head by exactly one cell along one axis |
| Geometry.DeltaOfOpposite | snake.c:185-200 | the direction each reversal test treats as opposite has exactly the negated step, so the reversal ban is about geometric reversals |
| SnakeBody.IncreaseSnake | snake.c:117-128 | the new segment is appended as the tail: length grows by one and every earlier segment is unchanged |
| SnakeBody.CreateSnake | snake.c:97-115 | the snake has `size` segments (just the head when `size < 1`); segment i is at (w/2 − i, h/2) |
| SnakeBody.CreateSnakeShape | snake.c:97-115 | the starting segments are pairwise distinct and each is edge-adjacent to the next |
| SnakeBody.CreateSnakeInside | snake.c:97-115 | the starting snake lies in the playfield if and only if its middle head cell and its leftmost tail cell do |
| Direction.ParseMove | snake.c:182-204 | the result never reverses `last`; a non-reversing arrow key moves in its own direction; a reversing or non-arrow key moves in `last`'s direction; the result is the new `last` |
| Direction.Reentries | snake.c:182-204 | the filter re-enters itself at most once, and not at all exactly when the key is an accepted arrow |
| Move.MoveSnake | snake.c:206-241 | dead iff the new head leaves the playfield or equals the pre-shift cell of some non-head segment, the old tail included; eaten iff alive and the head is on the fruit; fine gives [head] ++ body minus its tail and erases the old tail; eaten gives [head] ++ whole body and erases the fruit |
| Move.MoveSnakeWalk | snake.c:206-241 | the loop over the segments computes the same result as `MoveSnake`; a border death shifts no segment, and a self-collision stops the shift at the first segment whose old cell the head hit |
| Move.MoveKeepsDistinct | snake.c:216-240 | a surviving unit step keeps all segments pairwise distinct |
| Move.MoveKeepsInside | snake.c:216-240 | a surviving step keeps all segments in the playfield |
| Move.MoveKeepsConnected | snake.c:216-240 | a surviving unit step keeps consecutive segments edge-adjacent |
| Move.TailCellIsFatal | snake.c:221-233 | stepping into the cell the tail is vacating kills the snake |
| Move.CoiledSnakeDies | snake.c:221-233 | a length-4 snake coiled in a 2x2 square dies when it turns into its tail |
| Move.StraightMove | snake.c:234-240 | a plain step right shifts the body and erases the old tail |
| Move.EatFruit | snake.c:234-237 | stepping onto the fruit keeps the old tail and erases the fruit cell |
| Fruit.Candidate | snake.c:131-138 | a candidate fruit cell lies in columns 1..w−3 and rows 1..h−3 |
| Fruit.Scan | snake.c:140-147 | the walk's fruit is the candidate of the last re-draw and the draws left are those after it; it avoids every segment from `clearFrom` on; with no re-draw `clearFrom` is unchanged, otherwise it is a segment, at or after the one being visited, on which the replaced candidate sat; it places nothing only when the last candidate the draws allow sits on a segment still to be visited |
| Fruit.CreateFruit | snake.c:130-150 | a placed fruit is candidate number `redraws` and is in range; it differs from the tail and from every segment from `clearFrom` on; with no re-draw it avoids the whole body, otherwise segment `clearFrom` held the candidate the last re-draw replaced; nothing is placed only when there are fewer than two draws or the last candidate the draws allow is on the snake |
| Fruit.CreateFruitNoneAllOnBody | snake.c:140-147 | the code's placement fails only when every candidate the draws allow is on the snake, so it places a fruit whenever the reference placement does |
| Fruit.FreeFrom | snake.c:140-147 | reference placement: the fruit is the first candidate on no segment at all, and every earlier candidate was on the snake; it places nothing only when every candidate the draws allow is on the snake |
| Fruit.ScanKeepsFreeCandidate | snake.c:140-147 | a candidate free of the segments still to be tested is kept without drawing |
| Fruit.FreeFirstDrawAgrees | snake.c:130-150 | when the first candidate is off the snake, the code's placement equals the reference placement |
| Fruit.FruitCanLandOnHead | snake.c:140-147 | a concrete body and draws for which the code's fruit settles on the head, where the reference placement places none |
| Game.Start | snake.c:68-73 | the game starts with score 0, direction right, the length-3 snake, and exactly the fruit and leftover draws of placing a fruit for that snake (so a fruit off the tail); it starts iff that placement succeeds |
| Game.Tick | snake.c:76-85 | the game ends iff the move is dead, keeping the score; the body becomes the move's body; the score rises by one exactly when the move ate, and then the fruit and remaining draws are the new placement's (or the tick runs out of draws iff that placement fails); on a plain move fruit, score and draws are unchanged; `last` becomes the filtered direction |
| Game.StartValid | snake.c:68-69 | on a screen of at least 6 by 4, the starting state has length 3 + score, distinct segments, all in the playfield, as one trail |
| Game.TickKeepsValid | snake.c:77-85 | a tick that keeps a valid game running keeps it valid |
| Game.Run | snake.c:75-88 | from any game with a snake, the score never falls and the body grows by exactly the points gained; from a valid game, a running game stays valid, so its length is 3 + score |

## Left out

- Terminal set-up, colour detection, drawing, the score display and the death
  screen: these are ncurses I/O. The only trace of them is the `erased` cell a
  move reports.
- Which erase routine runs: after eating, the code always calls the
  ASCII-mode `removeChar` on the fruit cell, even in colour mode. The model
  reports only which cell is erased.
- Key input (`getch`, the 300 ms timeout) and the `'q'` quit test: keys are
  given as a sequence. The first tick's key is 0 in the source, which the
  model writes as `Other(0)`.
- `srand`/`rand`: replaced by a sequence of draws. When placement runs out of
  draws it yields `None`. Nothing is claimed about uniformity, or about
  termination when the snake covers every fruit cell (the code then loops
  forever).
- Fruit.CreateFruit: requires `w > 3` and `h > 3`. The code takes the draws
  modulo `w − 3` and `h − 3`, so those must be non-zero. A screen two or fewer
  cells wide or high is not modelled either: its playfield is empty and the
  first move dies.
- The order of the two draws in the first candidate: C does not fix the order
  in which an initializer list is evaluated. The model draws the column first,
  as the re-draw loop does.
- `getmaxx`/`getmaxy`: the screen size is a parameter and does not change
  between ticks.
- Memory management (`malloc`, `free`, `cleanSnake`, the list pointers):
  the snake is a sequence, and allocation failure is not modelled.
- The body after a fatal move: the head has already moved and the body may be
  partly shifted, but the game ends and the body is thrown away. `Dead`
  carries no body.
- Integer width: coordinates are unbounded integers. The C `int` cannot
  overflow here, because every cell stays within the screen.
