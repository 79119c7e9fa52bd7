/** The Snake game of src/SnakeGame.jsx as values: the 20 x 20 board, one tick of the
    game loop, the arrow-key rule and the score bookkeeping, with the invariants a
    session keeps. The component class that updates these values in place is in
    module Controller. */
module Grid {

  const CanvasWidth: int := 400
  const CanvasHeight: int := 400
  const CellSize: int := 20
  /** The score that arms the secret. */
  const TargetScore: int := 5
  /** Board size in cells (canvasWidth / cellSize by canvasHeight / cellSize). */
  const Cols: int := CanvasWidth / CellSize
  const Rows: int := CanvasHeight / CellSize

  /** A value returned by Math.random(): a number in [0, 1). */
  type Sample = r: real | 0.0 <= r < 1.0 witness 0.0

  datatype Cell = Cell(x: int, y: int)

  /** The heading the snake moves in, one cell per tick. */
  datatype Heading = Heading(x: int, y: int)

  const Up: Heading := Heading(0, -1)
  const Down: Heading := Heading(0, 1)
  const Left: Heading := Heading(-1, 0)
  const Right: Heading := Heading(1, 0)

  predicate IsHeading(d: Heading) {
    d == Up || d == Down || d == Left || d == Right
  }

  function Opposite(d: Heading): Heading {
    Heading(-d.x, -d.y)
  }

  predicate InBounds(c: Cell) {
    0 <= c.x < Cols && 0 <= c.y < Rows
  }

  // ---------------------------------------------------------------------------
  // Food placement

  /** randomFoodPosition: each coordinate is floor(Math.random() * 20). */
  function RandomFoodPosition(rx: Sample, ry: Sample): (c: Cell)
    ensures InBounds(c)
  {
    var fx, fy := rx * Cols as real, ry * Rows as real;
    assert Cols == 20 && Rows == 20 && 0.0 <= fx < 20.0 && 0.0 <= fy < 20.0;
    Cell(fx.Floor, fy.Floor)
  }

  /** Every cell of the board can be drawn as food, whatever the snake covers. */
  lemma EveryCellCanBeFood(c: Cell)
    requires InBounds(c)
    ensures exists rx: Sample, ry: Sample :: RandomFoodPosition(rx, ry) == c
  {
    var rx: Sample := c.x as real / Cols as real;
    var ry: Sample := c.y as real / Rows as real;
    assert rx * Cols as real == c.x as real;
    assert ry * Rows as real == c.y as real;
    assert RandomFoodPosition(rx, ry) == c;
  }

  // ---------------------------------------------------------------------------
  // One move of the snake (the setSnake updater)

  /** prevSnake.some(segment => segment is c). */
  function Occupied(body: seq<Cell>, c: Cell): (r: bool)
    ensures r <==> exists i :: 0 <= i < |body| && body[i] == c
  {
    if body == [] then false else body[0] == c || Occupied(body[1..], c)
  }

  /** The cell the head moves to. */
  function NewHead(snake: seq<Cell>, d: Heading): (h: Cell)
    requires |snake| > 0
    ensures h.x - snake[0].x == d.x && h.y - snake[0].y == d.y
    ensures IsHeading(d) ==> Adjacent(snake[0], h)
  {
    Cell(snake[0].x + d.x, snake[0].y + d.y)
  }

  /** The wall test, written as the four comparisons of the game loop. */
  predicate HitsWall(c: Cell) {
    c.x < 0 || c.x >= Cols || c.y < 0 || c.y >= Rows
  }

  /** The outcome of moving the pre-move body `prev` one step. */
  datatype Move = Collision | Moved(snake: seq<Cell>, ate: bool)

  /** One move: collide with a wall or with any pre-move segment (the tail that is about
      to be vacated included), or prepend the new head and either keep the tail (food
      eaten) or drop it. */
  function Advance(prev: seq<Cell>, food: Cell, d: Heading): (r: Move)
    requires |prev| > 0
    ensures r.Collision? <==> !InBounds(NewHead(prev, d)) || NewHead(prev, d) in prev
    ensures r.Moved? ==> (r.ate <==> NewHead(prev, d) == food)
    ensures r.Moved? ==> |r.snake| == if r.ate then |prev| + 1 else |prev|
    ensures r.Moved? ==> r.snake[0] == NewHead(prev, d)
    ensures r.Moved? ==> r.snake[1..] == if r.ate then prev else prev[..|prev| - 1]
  {
    var newHead := NewHead(prev, d);
    if HitsWall(newHead) || Occupied(prev, newHead) then
      Collision
    else
      var grown := [newHead] + prev;
      if newHead == food then Moved(grown, true) else Moved(grown[..|grown| - 1], false)
  }

  // ---------------------------------------------------------------------------
  // The whole game state and one tick

  /** The component's state. `completions` counts the calls of the host's
      onGameComplete callback. */
  datatype GameState = GameState(
    snake: seq<Cell>,
    food: Cell,
    direction: Heading,
    score: int,
    gameOver: bool,
    showSecret: bool,
    specialHeart: bool,
    completions: nat)

  /** The state on mount: one cell at (5, 5), moving right, random food. */
  function Init(rx: Sample, ry: Sample): (g: GameState)
    ensures |g.snake| == 1 && InBounds(g.snake[0]) && InBounds(g.food)
    ensures g.score == 0 && !g.gameOver && !g.specialHeart && g.completions == 0
  {
    GameState([Cell(5, 5)], RandomFoodPosition(rx, ry), Right, 0, false, false, false, 0)
  }

  /** The setScore updater of a food tick: the score goes up by one; reaching the target
      arms the secret; going past it with the secret armed calls onGameComplete. */
  function Scored(g: GameState): (r: GameState)
    ensures r.score == g.score + 1
    ensures r.specialHeart <==> g.specialHeart || r.score == TargetScore
    ensures r.showSecret <==> g.showSecret || r.score == TargetScore
    ensures r.completions == g.completions + 1 <==> g.specialHeart && r.score > TargetScore
    ensures r.completions == g.completions || r.completions == g.completions + 1
    ensures r.snake == g.snake && r.food == g.food && r.direction == g.direction
    ensures r.gameOver == g.gameOver
  {
    var newScore := g.score + 1;
    var armed := newScore == TargetScore;
    g.(score := newScore,
       showSecret := if armed then true else g.showSecret,
       specialHeart := if armed then true else g.specialHeart,
       completions := if g.specialHeart && newScore > TargetScore then g.completions + 1 else g.completions)
  }

  /** One tick of the game loop. No tick runs once the game is over; a collision ends the
      game and keeps the snake; a move onto the food scores and re-places the food from
      the samples (rx, ry); any other move keeps the score and the food. */
  function Step(g: GameState, rx: Sample, ry: Sample): (r: GameState)
    requires |g.snake| > 0
    ensures g.gameOver ==> r == g
    ensures r.direction == g.direction
    ensures r.score == g.score || r.score == g.score + 1
    ensures |r.snake| == |g.snake| + (r.score - g.score)
    ensures r.score == g.score ==> r.food == g.food
    ensures InBounds(g.food) ==> InBounds(r.food)
  {
    if g.gameOver then g
    else
      match Advance(g.snake, g.food, g.direction)
      case Collision => g.(gameOver := true)
      case Moved(s, ate) =>
        if ate then Scored(g).(snake := s, food := RandomFoodPosition(rx, ry))
        else g.(snake := s)
  }

  // ---------------------------------------------------------------------------
  // Arrow keys

  /** The heading an arrow key asks for; NoRequest for any other key. */
  datatype Request = NoRequest | Requested(heading: Heading)

  function RequestOf(key: string): (q: Request)
    ensures q.Requested? <==> key in {"ArrowUp", "ArrowDown", "ArrowLeft", "ArrowRight"}
    ensures q.Requested? ==> IsHeading(q.heading)
  {
    if key == "ArrowUp" then Requested(Up)
    else if key == "ArrowDown" then Requested(Down)
    else if key == "ArrowLeft" then Requested(Left)
    else if key == "ArrowRight" then Requested(Right)
    else NoRequest
  }

  /** The keydown handler: each arrow key is refused when the current heading points the
      other way along the same axis; any other key is ignored. */
  function Press(d: Heading, key: string): (r: Heading)
    ensures RequestOf(key).NoRequest? ==> r == d
    ensures r == d || (RequestOf(key).Requested? && r == RequestOf(key).heading)
  {
    if key == "ArrowUp" then (if d.y != 1 then Up else d)
    else if key == "ArrowDown" then (if d.y != -1 then Down else d)
    else if key == "ArrowLeft" then (if d.x != 1 then Left else d)
    else if key == "ArrowRight" then (if d.x != -1 then Right else d)
    else d
  }

  /** The key rule in terms of reversal: from a heading, a press takes the requested
      heading unless that is the direct reverse of the current one. */
  lemma PressRefusesExactlyReversal(d: Heading, key: string)
    requires IsHeading(d)
    ensures RequestOf(key).Requested? ==>
      (Press(d, key) == RequestOf(key).heading <==> Opposite(RequestOf(key).heading) != d)
    ensures IsHeading(Press(d, key))
    ensures Press(d, key) != Opposite(d)
  {
  }

  // ---------------------------------------------------------------------------
  // Per-tick outcomes

  /** A wall collision ends the game and changes nothing else. */
  lemma WallCollision(g: GameState, rx: Sample, ry: Sample)
    requires |g.snake| > 0 && !g.gameOver
    requires !InBounds(NewHead(g.snake, g.direction))
    ensures Step(g, rx, ry) == g.(gameOver := true)
  {
  }

  /** Moving onto any pre-move segment, the current tail included, ends the game and
      changes nothing else. */
  lemma SelfCollision(g: GameState, i: int, rx: Sample, ry: Sample)
    requires |g.snake| > 0 && !g.gameOver
    requires 0 <= i < |g.snake| && NewHead(g.snake, g.direction) == g.snake[i]
    ensures Step(g, rx, ry) == g.(gameOver := true)
  {
  }

  /** A move that neither collides nor eats: the new head in front, the last segment
      dropped, the length, score, food and flags kept. */
  lemma PlainMove(g: GameState, rx: Sample, ry: Sample)
    requires |g.snake| > 0 && !g.gameOver
    requires var h := NewHead(g.snake, g.direction); InBounds(h) && h !in g.snake && h != g.food
    ensures var r := Step(g, rx, ry);
      && r.snake == [NewHead(g.snake, g.direction)] + g.snake[..|g.snake| - 1]
      && |r.snake| == |g.snake|
      && r == g.(snake := r.snake)
  {
  }

  /** A move onto the food: the whole old body kept behind the new head, length and score
      up by exactly one, the food re-placed in bounds. */
  lemma EatMove(g: GameState, rx: Sample, ry: Sample)
    requires |g.snake| > 0 && !g.gameOver
    requires var h := NewHead(g.snake, g.direction); InBounds(h) && h !in g.snake && h == g.food
    ensures var r := Step(g, rx, ry);
      && r.snake == [g.food] + g.snake
      && |r.snake| == |g.snake| + 1
      && r.score == g.score + 1
      && r.food == RandomFoodPosition(rx, ry) && InBounds(r.food)
      && !r.gameOver
  {
  }

  /** The secret flags: set by a tick exactly when that tick brings the score to the
      target, and never cleared. */
  lemma SecretRule(g: GameState, rx: Sample, ry: Sample)
    requires |g.snake| > 0
    ensures var r := Step(g, rx, ry);
      && (r.specialHeart <==> g.specialHeart || (r.score == g.score + 1 && r.score == TargetScore))
      && (r.showSecret <==> g.showSecret || (r.score == g.score + 1 && r.score == TargetScore))
  {
  }

  /** onGameComplete is called by a tick exactly when the tick eats, the secret was
      already armed and the new score is above the target. */
  lemma CompletionRule(g: GameState, rx: Sample, ry: Sample)
    requires |g.snake| > 0
    ensures var r := Step(g, rx, ry);
      && (r.completions == g.completions + 1 <==>
          r.score == g.score + 1 && g.specialHeart && r.score > TargetScore)
      && (r.completions == g.completions || r.completions == g.completions + 1)
  {
  }

  // ---------------------------------------------------------------------------
  // Invariants of a session

  ghost predicate AllInBounds(s: seq<Cell>) {
    forall i :: 0 <= i < |s| ==> InBounds(s[i])
  }

  ghost predicate Distinct(s: seq<Cell>) {
    forall i, j :: 0 <= i < j < |s| ==> s[i] != s[j]
  }

  function Abs(n: int): nat {
    if n < 0 then -n else n
  }

  predicate Adjacent(a: Cell, b: Cell) {
    Abs(a.x - b.x) + Abs(a.y - b.y) == 1
  }

  /** Each segment touches the next one along an edge. */
  ghost predicate Contiguous(s: seq<Cell>) {
    forall i :: 0 < i < |s| ==> Adjacent(s[i - 1], s[i])
  }

  /** What holds of every state a session reaches. */
  ghost predicate Inv(g: GameState) {
    && |g.snake| > 0
    && AllInBounds(g.snake)
    && Distinct(g.snake)
    && Contiguous(g.snake)
    && InBounds(g.food)
    && IsHeading(g.direction)
    && g.score >= 0
    && |g.snake| == g.score + 1
    && (g.specialHeart <==> g.score >= TargetScore)
    && g.showSecret == g.specialHeart
    && g.completions == (if g.score > TargetScore then g.score - TargetScore else 0)
  }

  lemma InitInv(rx: Sample, ry: Sample)
    ensures Inv(Init(rx, ry))
  {
  }

  /** A tick keeps the invariant: cells in bounds and pairwise distinct, the body
      contiguous, the length one more than the score, the secret armed exactly from
      the target on, and one completion call per food eaten past the target. */
  lemma StepInv(g: GameState, rx: Sample, ry: Sample)
    requires Inv(g)
    ensures Inv(Step(g, rx, ry))
  {
  }

  /** A key press keeps the invariant. */
  lemma PressInv(g: GameState, key: string)
    requires Inv(g)
    ensures Inv(g.(direction := Press(g.direction, key)))
  {
  }

  // ---------------------------------------------------------------------------
  // Sessions

  /** What the event loop delivers: a timer tick (with the two samples the food
      placement would draw) or a keydown. */
  datatype Event = TickEvent(rx: Sample, ry: Sample) | KeyEvent(key: string)

  /** The state after handling `events` in order, one at a time. */
  function Run(g: GameState, events: seq<Event>): (r: GameState)
    requires |g.snake| > 0
    ensures |r.snake| > 0
    ensures g.gameOver ==> r.snake == g.snake && r.food == g.food && r.score == g.score
    ensures r.score >= g.score && r.completions >= g.completions
    decreases |events|
  {
    if events == [] then g
    else
      var next := match events[0]
        case TickEvent(rx, ry) => Step(g, rx, ry)
        case KeyEvent(key) => g.(direction := Press(g.direction, key));
      Run(next, events[1..])
  }

  lemma {:induction false} RunInv(g: GameState, events: seq<Event>)
    requires Inv(g)
    ensures Inv(Run(g, events))
    decreases |events|
  {
    if events != [] {
      match events[0]
      case TickEvent(rx, ry) =>
        StepInv(g, rx, ry);
        RunInv(Step(g, rx, ry), events[1..]);
      case KeyEvent(key) =>
        PressInv(g, key);
        RunInv(g.(direction := Press(g.direction, key)), events[1..]);
    }
  }

  /** In every session: the snake stays on the board without overlapping itself, the
      secret is shown exactly from score 5 on, and onGameComplete has not been called
      while the score is 5 or less; its first call comes with score 6. */
  lemma SessionFacts(rx: Sample, ry: Sample, events: seq<Event>)
    ensures var g := Run(Init(rx, ry), events);
      && AllInBounds(g.snake) && Distinct(g.snake)
      && |g.snake| == g.score + 1
      && (g.showSecret <==> g.score >= TargetScore)
      && (g.score <= TargetScore ==> g.completions == 0)
      && (g.completions == 1 <==> g.score == TargetScore + 1)
  {
    InitInv(rx, ry);
    RunInv(Init(rx, ry), events);
  }

  // ---------------------------------------------------------------------------
  // Worked examples

  /** From the start cell moving right onto food at (6, 5): two cells, score one. */
  lemma FirstBiteExample(rx: Sample, ry: Sample)
    ensures var g := GameState([Cell(5, 5)], Cell(6, 5), Right, 0, false, false, false, 0);
      var r := Step(g, rx, ry);
      r.snake == [Cell(6, 5), Cell(5, 5)] && r.score == 1 && !r.gameOver
  {
  }

  /** Moving left from column 0 hits the wall; the snake stays where it was. */
  lemma WallExample(rx: Sample, ry: Sample)
    ensures var g := GameState([Cell(0, 5)], Cell(9, 9), Left, 0, false, false, false, 0);
      var r := Step(g, rx, ry);
      r.gameOver && r.snake == [Cell(0, 5)]
  {
  }

  /** Each press is compared with the current heading only, so two presses between
      ticks (up, then left, while moving right) turn the snake into its own neck. */
  lemma NeckTurnExample()
    ensures var g := GameState([Cell(6, 5), Cell(5, 5)], Cell(9, 9), Right, 1, false, false, false, 0);
      var r := Run(g, [KeyEvent("ArrowUp"), KeyEvent("ArrowLeft"), TickEvent(0.0, 0.0)]);
      r.direction == Left && r.gameOver && r.snake == g.snake
  {
    var g := GameState([Cell(6, 5), Cell(5, 5)], Cell(9, 9), Right, 1, false, false, false, 0);
    var g1 := g.(direction := Press(g.direction, "ArrowUp"));
    assert g1.direction == Up;
    var g2 := g1.(direction := Press(g1.direction, "ArrowLeft"));
    assert g2.direction == Left;
    assert NewHead(g2.snake, Left) == g.snake[1];
    assert Step(g2, 0.0, 0.0) == g2.(gameOver := true);
  }

  /** Food is placed without looking at the snake: it can land on the start cell. */
  lemma FoodMayLandOnSnake()
    ensures RandomFoodPosition(0.25, 0.25) in Init(0.0, 0.0).snake
  {
  }
}
