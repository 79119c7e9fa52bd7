# Snake game core, modelled in Dafny

This project models the Snake minigame of `src/SnakeGame.jsx`. The game runs on a
20 x 20 grid: 400 x 400 canvas units cut into 20-unit cells. Its state is the snake
(a list of cells, head first), the food cell, the heading, the score, a game-over flag,
and the two secret flags `showSecret` and `specialHeart`. Reaching score 5 arms the
secret. The next food eaten after that calls the host's `onGameComplete` callback.

- `grid.dfy`, module `Grid`: the game as pure values.
  - `Advance` is the `setSnake` updater: new head, collision test, prepend, then grow or
    drop the tail.
  - `Scored` is the `setScore` updater.
  - `Step` is one timer tick on a whole `GameState`.
  - `Press` is the keydown rule.
  - `Inv` is what every reachable state satisfies. `StepInv`, `PressInv` and `RunInv`
    prove that ticks and key presses preserve it.
  - `Run` handles a list of timer and key events one at a time.
- `controller.dfy`, module `Controller`: the component as a class `SnakeGame`. It has
  the component's state fields. `Tick` and `KeyPress` overwrite those fields, as the
  source's setters do. Each method is proved to produce exactly the state that
  `Grid.Step` or `Grid.Press` gives, and to keep `Inv`.

Stand-ins:
- `Math.random()` becomes a `Sample`, a real in [0, 1). `randomFoodPosition` is
  `floor(sample * 20)` on each axis. `Tick` takes the two samples as parameters, and the
  food is drawn from them only when the snake eats.
- The `onGameComplete` callback becomes the counter `completions`, which counts how
  many times the callback has been called.

Two behaviours of the code that a reader might not expect:
- The code calls `onGameComplete` on every food tick past score 5 while the secret is
  armed, not once per session. The model does the same, and proves
  `completions == score - 5` once the score is above 5. In the app the host leaves the
  game stage on the first call (`src/App.jsx:32-34`), so only the first call has an
  effect. `SessionFacts` proves that this first call comes exactly when the score
  reaches 6.
- A key press is compared only with the current heading, and each accepted press
  overwrites it before the next tick. So two presses between ticks can turn the snake
  into its own neck: moving right, Up then Left gives heading Left, and the next tick
  collides with the second segment. The model reproduces this (`NeckTurnExample`).
  "Never reverses the heading" in `KeyPress` and `PressRefusesExactlyReversal` is about
  a single press only.

## Model

| member | source | states |
|---|---|---|
| `Grid.RandomFoodPosition` | src/SnakeGame.jsx:18-22 | food placed from two `Math.random()` samples always lies on the 20 x 20 board |
| `Grid.EveryCellCanBeFood` | src/SnakeGame.jsx:18-22 | every board cell can be drawn as food; placement does not exclude cells the snake covers |
| `Grid.FoodMayLandOnSnake` | src/SnakeGame.jsx:18-22 | food can be placed on a snake cell (the start cell (5, 5)) |
| `Grid.Occupied` | src/SnakeGame.jsx:65-67 | the `some` test is true exactly when some segment of the body equals the cell |
| `Grid.NewHead` | src/SnakeGame.jsx:54-57 | the new head is the old head moved by the heading vector, so a unit heading gives a cell adjacent to the old head |
| `Grid.Advance` | src/SnakeGame.jsx:53-93 | collision iff the new head is off the board or on any pre-move segment; otherwise the new head leads, the snake eats iff the head is on the food, and the rest is the whole old body (ate) or the old body without its last cell (length kept) |
| `Grid.Init` | src/SnakeGame.jsx:10-16 | the mounted state: one in-bounds cell, in-bounds food, score 0, not over, secret not armed, no completion call |
| `Grid.Scored` | src/SnakeGame.jsx:77-87 | a food tick raises the score by one, arms both secret flags iff the new score is 5 (never clears them), and calls onGameComplete iff the secret was armed and the new score is above 5 |
| `Grid.Step` | src/SnakeGame.jsx:50-93 | a tick after game over changes nothing; the heading is kept; the score grows by 0 or 1 and the snake's length by the same amount; food changes only when the score grows and stays in bounds |
| `Grid.RequestOf` | src/SnakeGame.jsx:27-41 | a key requests a heading iff it is one of the four arrow keys, and each requests a unit heading |
| `Grid.Press` | src/SnakeGame.jsx:26-43 | a non-arrow key leaves the heading unchanged; a press yields either the current heading or the requested one |
| `Grid.PressRefusesExactlyReversal` | src/SnakeGame.jsx:28-41 | from a unit heading, an arrow press is taken iff it is not the direct reverse of the current heading; the result is a unit heading and never the reverse of the current one |
| `Grid.WallCollision` | src/SnakeGame.jsx:60-71 | a new head outside [0,20) x [0,20) sets game over and leaves snake, food, score and flags unchanged |
| `Grid.SelfCollision` | src/SnakeGame.jsx:65-71 | a new head equal to any pre-move segment, the tail about to be vacated included, sets game over and changes nothing else |
| `Grid.PlainMove` | src/SnakeGame.jsx:73-92 | a move that neither collides nor eats gives the new head followed by the old body minus its last cell; the length is kept, and nothing but the snake changes |
| `Grid.EatMove` | src/SnakeGame.jsx:73-88 | a move onto the food keeps the whole old body behind the new head; length and score each grow by exactly 1; the new food is the sampled in-bounds cell |
| `Grid.SecretRule` | src/SnakeGame.jsx:79-82 | after a tick the secret flags are set iff they were already set or this tick ate and brought the score to 5 |
| `Grid.CompletionRule` | src/SnakeGame.jsx:83-85 | a tick calls onGameComplete iff it eats, the secret was already armed, and the new score is above 5; it calls it at most once |
| `Grid.InitInv` | src/SnakeGame.jsx:10-16 | the mounted state satisfies the session invariant |
| `Grid.StepInv` | src/SnakeGame.jsx:53-93 | a tick preserves the invariant: cells in bounds and pairwise distinct, consecutive cells adjacent, length = score + 1, secret armed iff score >= 5, completion calls = score - 5 above 5 and 0 otherwise, unit heading, food in bounds |
| `Grid.PressInv` | src/SnakeGame.jsx:26-43 | a key press preserves the session invariant |
| `Grid.Run` | src/SnakeGame.jsx:45-52 | handling a list of events keeps the snake non-empty, freezes snake, food and score once the game is over, and never lowers the score or the completion count |
| `Grid.RunInv` | src/SnakeGame.jsx:45-97 | any sequence of ticks and key presses preserves the session invariant |
| `Grid.SessionFacts` | src/SnakeGame.jsx:10-93 | in every session the snake stays on the board without overlapping itself; length = score + 1; the secret shows iff score >= 5; no completion call at score <= 5; exactly one call iff score is 6 |
| `Grid.FirstBiteExample` | src/SnakeGame.jsx:73-88 | [(5,5)] moving right onto food at (6,5) gives [(6,5),(5,5)] and score 1 |
| `Grid.WallExample` | src/SnakeGame.jsx:60-71 | [(0,5)] moving left ends the game with the snake still [(0,5)] |
| `Grid.NeckTurnExample` | src/SnakeGame.jsx:28-38 | moving right with [(6,5),(5,5)], pressing Up then Left before a tick gives heading Left, and the tick ends the game with the snake unchanged |
| `Controller.SnakeGame.constructor` | src/SnakeGame.jsx:10-16 | the fields hold the mounted state, which satisfies the invariant |
| `Controller.SnakeGame.Tick` | src/SnakeGame.jsx:50-93 | one tick overwrites the fields with exactly `Step` of the old state, keeps the invariant, and changes nothing once the game is over |
| `Controller.SnakeGame.KeyPress` | src/SnakeGame.jsx:26-43 | the handler sets the heading to `Press` of the old heading, changes no other field, keeps the invariant, and never reverses the heading |
| `Controller.ReverseIsRefused` | src/SnakeGame.jsx:28-57 | from the mounted state, Left (the reverse of Right) is refused, Up is taken, and one tick moves the snake to [(5,4)] |
| `Controller.SnakeGame.View` | src/SnakeGame.jsx:155-160 | what the score line and secret banner read, together with the snake and food the canvas effect (lines 109-120) draws: a non-empty, in-bounds, non-overlapping snake of length score + 1, in-bounds food, the secret shown iff score >= 5 |

## Left out

- Canvas drawing and `drawHeart` (src/SnakeGame.jsx:99-151) and the JSX markup: drawing
  calls with floating-point curve geometry and no game logic.
- React hooks, `setInterval`/`clearInterval` and the `window` keydown registration
  (src/SnakeGame.jsx:24-25, 45-52, 94-97): timer and listener plumbing. One tick and one
  key press are methods, and `Grid.Run` stands for the sequential event loop.
- React's batching and stale closures: the model is one tick or key press at a time on
  one consistent snapshot. The `specialHeart` value a tick reads is the one it started
  with. That cannot change the outcome, because a score equal to 5 and a score above 5
  exclude each other.
- `Math.random` and its floating-point product: replaced by an exact real sample in
  [0, 1), so `floor(sample * 20)` has no rounding. Only the range of food placement and
  the fact that every cell can be drawn are modelled, not its uniform distribution.
- The restart button, `window.location.reload()` (src/SnakeGame.jsx:167-173): browser
  I/O. It amounts to building a new `SnakeGame` with the constructor.
- `onGameComplete` is a counter. What the host does when it is called is not part of the
  model. All of `src/App.jsx` is not part of this model: stage switching for rendering
  and floating-point scale timers.
