/** The SnakeGame component of src/SnakeGame.jsx as an object: its state fields are
    overwritten by each timer tick and each key press, and every method is proved to
    perform exactly the step the pure model in module Grid describes. */
module Controller {
  import opened Grid

  class SnakeGame {
    var snake: seq<Cell>
    var food: Cell
    var direction: Heading
    var score: int
    var gameOver: bool
    var showSecret: bool
    var specialHeart: bool
    /** How many times the host's onGameComplete callback has been called. */
    var completions: nat

    /** The fields as one value of the pure model. */
    function Model(): GameState
      reads this
    {
      GameState(snake, food, direction, score, gameOver, showSecret, specialHeart, completions)
    }

    ghost predicate Valid()
      reads this
    {
      Inv(Model())
    }

    /** Mounting the component; (rx, ry) are the samples the first food is drawn from. */
    constructor (rx: Sample, ry: Sample)
      ensures Valid()
      ensures Model() == Init(rx, ry)
    {
      snake := [Cell(5, 5)];
      food := RandomFoodPosition(rx, ry);
      direction := Heading(1, 0);
      score := 0;
      gameOver := false;
      showSecret := false;
      specialHeart := false;
      completions := 0;
      new;
      InitInv(rx, ry);
    }

    /** One timer tick; (rx, ry) are the samples food placement draws if the snake eats. */
    method Tick(rx: Sample, ry: Sample)
      requires Valid()
      modifies this
      ensures Valid()
      ensures Model() == Step(old(Model()), rx, ry)
      ensures old(gameOver) ==> Model() == old(Model())
    {
      ghost var before := Model();
      StepInv(before, rx, ry);
      if gameOver {
        return;
      }
      ghost var move := Advance(snake, food, direction);
      // the secret flag as the tick found it
      var armedBefore := specialHeart;
      var newHead := Cell(snake[0].x + direction.x, snake[0].y + direction.y);
      if newHead.x < 0 || newHead.x >= Cols || newHead.y < 0 || newHead.y >= Rows
        || Occupied(snake, newHead)
      {
        assert move == Collision;
        gameOver := true;
        return;
      }
      var newSnake := [newHead] + snake;
      if newHead == food {
        var newScore := score + 1;
        if newScore == TargetScore {
          showSecret := true;
          specialHeart := true;
        }
        if armedBefore && newScore > TargetScore {
          completions := completions + 1;
        }
        score := newScore;
        food := RandomFoodPosition(rx, ry);
      } else {
        newSnake := newSnake[..|newSnake| - 1];
      }
      assert move == Moved(newSnake, newHead == before.food);
      snake := newSnake;
    }

    /** The keydown handler. */
    method KeyPress(key: string)
      requires Valid()
      modifies this`direction
      ensures Valid()
      ensures Model() == old(Model()).(direction := Press(old(direction), key))
      ensures direction != Opposite(old(direction))
    {
      var next := direction;
      if key == "ArrowUp" {
        if direction.y != 1 { next := Heading(0, -1); }
      } else if key == "ArrowDown" {
        if direction.y != -1 { next := Heading(0, 1); }
      } else if key == "ArrowLeft" {
        if direction.x != 1 { next := Heading(-1, 0); }
      } else if key == "ArrowRight" {
        if direction.x != -1 { next := Heading(1, 0); }
      }
      assert next == Press(direction, key);
      PressInv(Model(), key);
      PressRefusesExactlyReversal(direction, key);
      direction := next;
    }

    /** What the renderer and the score line read: no state changes. */
    method View() returns (body: seq<Cell>, foodCell: Cell, currentScore: int, secret: bool)
      requires Valid()
      ensures |body| > 0 && AllInBounds(body) && Distinct(body) && InBounds(foodCell)
      ensures |body| == currentScore + 1 && (secret <==> currentScore >= TargetScore)
      ensures body == snake && foodCell == food && currentScore == score && secret == showSecret
    {
      body, foodCell, currentScore, secret := snake, food, score, showSecret;
    }
  }

  /** A short session: the first key press that would reverse the snake is refused, the
      second one turns it. */
  method ReverseIsRefused() returns (heading: Heading, body: seq<Cell>)
    ensures heading == Up && body == [Cell(5, 4)]
  {
    var game := new SnakeGame(0.5, 0.5);
    game.KeyPress("ArrowLeft");
    assert game.direction == Right;
    game.KeyPress("ArrowUp");
    assert game.direction == Up;
    game.Tick(0.0, 0.0);
    heading, body := game.direction, game.snake;
  }
}
