/** The modular version's controller (`GameController`): key dispatch, the
    run-state rules (start, pause, game over and the high score), the tick
    that composes the `StateManager` operations, and the elapsed-time gate
    of the animation loop. */
module Controller {
  import opened Constants
  import opened State

  /** How a tick of `update` ended. `Fault` is the tick that reads the head
      of an empty snake: the JavaScript throws a TypeError there. */
  datatype TickOutcome = Collision | FoodEaten | TailRemoved | Fault

  datatype TickResult = TickResult(outcome: TickOutcome, snake: seq<Point>)

  /** The number of obstacles `startGame` asks for at each tier. */
  function ObstacleCount(d: Difficulty): nat {
    match d
    case Easy => 0
    case Medium => 3
    case Hard => 5
    case Expert => 8
  }

  /** EASY has no obstacles; MEDIUM, HARD and EXPERT ask for 3, 5 and 8, so
      a harder tier asks for strictly more. */
  lemma ObstacleCounts(d: Difficulty, e: Difficulty)
    ensures ObstacleCount(Easy) == 0 && ObstacleCount(Medium) == 3
    ensures ObstacleCount(Hard) == 5 && ObstacleCount(Expert) == 8
    ensures Rank(d) < Rank(e) ==> ObstacleCount(d) < ObstacleCount(e)
  {
  }

  /** The snake and the outcome of one `update`, from the snake, the
      committed direction, the input flag, the obstacles and the food
      before it (the food sampled on an eating tick is not part of this). */
  function Tick(snake: seq<Point>, dir: Point, hasInput: bool, obstacles: seq<Point>, food: Point): TickResult
  {
    if snake == [] then TickResult(Fault, snake)
    else
      var moved := Advance(snake, dir, hasInput);
      if Collides(moved, obstacles) then TickResult(Collision, moved)
      else if moved[0] == food then TickResult(FoodEaten, moved)
      else TickResult(TailRemoved, moved[..|moved| - 1])
  }

  /** The shape of the snake after a tick. A moving tick prepends the new
      head; a collision and a meal keep it (net +1) and any other tick pops
      the tail (net 0). A tick that does not move keeps or pops. Only an
      empty snake faults. */
  lemma TickShape(snake: seq<Point>, dir: Point, hasInput: bool, obstacles: seq<Point>, food: Point)
    ensures var t := Tick(snake, dir, hasInput, obstacles, food);
            && (t.outcome == Fault <==> snake == [])
            && (t.outcome == Fault ==> t.snake == snake)
            && (snake != [] && Moves(dir, hasInput) ==>
                  && t.snake[0] == snake[0].Plus(dir)
                  && (t.outcome != TailRemoved ==> t.snake == [snake[0].Plus(dir)] + snake)
                  && (t.outcome == TailRemoved ==> t.snake == [snake[0].Plus(dir)] + snake[..|snake| - 1]))
            && (snake != [] && !Moves(dir, hasInput) ==>
                  && (t.outcome != TailRemoved ==> t.snake == snake)
                  && (t.outcome == TailRemoved ==> t.snake == snake[..|snake| - 1]))
  {
    var t := Tick(snake, dir, hasInput, obstacles, food);
    if snake != [] && Moves(dir, hasInput) && t.outcome == TailRemoved {
      var moved := [snake[0].Plus(dir)] + snake;
      assert moved[..|moved| - 1] == [snake[0].Plus(dir)] + snake[..|snake| - 1];
    }
  }

  /** The outcomes exactly: a collision is `Collides` on the moved snake,
      a meal is the moved head on the food without a collision. */
  lemma TickOutcomes(snake: seq<Point>, dir: Point, hasInput: bool, obstacles: seq<Point>, food: Point)
    requires snake != []
    ensures var t := Tick(snake, dir, hasInput, obstacles, food);
            var moved := Advance(snake, dir, hasInput);
            && (t.outcome == Collision <==> Collides(moved, obstacles))
            && (t.outcome == FoodEaten <==> !Collides(moved, obstacles) && moved[0] == food)
  {
  }

  /** Before any accepted key, a tick of a one-cell snake that is on the
      board and on neither an obstacle nor the food pops its only cell. */
  lemma IdleTickEmptiesSnake(cell: Point, obstacles: seq<Point>, food: Point)
    requires InGrid(cell) && cell !in obstacles && cell != food
    ensures Tick([cell], Zero, false, obstacles, food) == TickResult(TailRemoved, [])
  {
    assert !Collides([cell], obstacles);
  }

  /** ... and the tick after that faults, whatever has been pressed since. */
  lemma SecondIdleTickFaults(cell: Point, obstacles: seq<Point>, food: Point, dir: Point, hasInput: bool)
    requires InGrid(cell) && cell !in obstacles && cell != food
    ensures var first := Tick([cell], Zero, false, obstacles, food);
            Tick(first.snake, dir, hasInput, obstacles, food).outcome == Fault
  {
    IdleTickEmptiesSnake(cell, obstacles, food);
  }

  /** A body on the board, without repeated cells and off the obstacles. */
  predicate SoundBody(snake: seq<Point>, obstacles: seq<Point>) {
    && AllInGrid(snake) && Distinct(snake)
    && forall i :: 0 <= i < |snake| ==> snake[i] !in obstacles
  }

  /** A tick that is neither a collision nor a fault keeps the body sound:
      the new head passed the wall, self and obstacle tests. */
  lemma TickKeepsBodySound(snake: seq<Point>, dir: Point, hasInput: bool, obstacles: seq<Point>, food: Point)
    requires SoundBody(snake, obstacles)
    ensures var t := Tick(snake, dir, hasInput, obstacles, food);
            t.outcome != Collision && t.outcome != Fault ==> SoundBody(t.snake, obstacles)
  {
    var t := Tick(snake, dir, hasInput, obstacles, food);
    if t.outcome != Collision && t.outcome != Fault {
      var moved := Advance(snake, dir, hasInput);
      assert !Collides(moved, obstacles);
      assert SoundBody(moved, obstacles) by {
        if Moves(dir, hasInput) {
          assert moved[1..] == snake;
          forall i, j | 0 <= i < j < |moved| ensures moved[i] != moved[j] {
            if i == 0 {
              assert moved[j] == snake[j - 1];
            } else {
              assert moved[i] == snake[i - 1] && moved[j] == snake[j - 1];
            }
          }
          forall i | 0 <= i < |moved| ensures InGrid(moved[i]) && moved[i] !in obstacles {
            if i > 0 {
              assert moved[i] == snake[i - 1];
            }
          }
        }
      }
      if t.outcome == TailRemoved {
        var kept := moved[..|moved| - 1];
        forall i | 0 <= i < |kept| ensures kept[i] == moved[i] {
        }
      }
    }
  }

  /** The elapsed-time gate of `gameLoop`. */
  predicate Due(currentTime: int, lastRender: int, speed: int) {
    currentTime - lastRender >= speed
  }

  class GameController {
    const stateManager: StateManager
    var highScore: int

    ghost predicate Valid()
      reads stateManager
    {
      stateManager.Valid()
    }

    /** A fresh state; `saved` is the stored high score, already parsed,
        or `None` when nothing is stored. */
    constructor (draws: seq<Point>, saved: Option<int>)
      requires |draws| > MaxFoodAttempts && AllInGrid(draws)
      ensures fresh(stateManager)
      ensures Valid() && stateManager.IsReset(draws)
      ensures highScore == if saved.Some? then saved.value else 0
    {
      stateManager := new StateManager(draws);
      highScore := if saved.Some? then saved.value else 0;
    }

    /** `handleKeyPress`: while running and not paused, a mapped key asks
        the state for that name's unit vector; anything else is ignored. */
    method HandleKeyPress(key: string)
      requires Valid()
      modifies stateManager`nextDirection, stateManager`hasUserInput
      ensures Valid()
      ensures !stateManager.gameRunning || stateManager.gamePaused || KeyMap(key).None? ==>
                && stateManager.nextDirection == old(stateManager.nextDirection)
                && stateManager.hasUserInput == old(stateManager.hasUserInput)
      ensures stateManager.gameRunning && !stateManager.gamePaused && KeyMap(key).Some? ==>
                var req := Direction(KeyMap(key).value);
                && stateManager.nextDirection == Pending(stateManager.direction, old(stateManager.nextDirection), req)
                && (!Reverses(req, stateManager.direction) ==> stateManager.hasUserInput)
                && (Reverses(req, stateManager.direction) ==> stateManager.hasUserInput == old(stateManager.hasUserInput))
    {
      if !stateManager.gameRunning || stateManager.gamePaused {
        return;
      }
      match KeyMap(key) {
        case None =>
        case Some(name) =>
          match name {
            case Up => stateManager.SetDirection(Point(0, -1));
            case Down => stateManager.SetDirection(Point(0, 1));
            case Left => stateManager.SetDirection(Point(-1, 0));
            case Right => stateManager.SetDirection(Point(1, 0));
          }
      }
    }

    /** `setDifficulty`: forwarded to the state (the label is display). */
    method SetDifficulty(level: Difficulty)
      requires Valid()
      modifies stateManager`difficulty, stateManager`gameSpeed
      ensures Valid()
      ensures stateManager.difficulty == level && stateManager.gameSpeed == TierSpeed(level)
    {
      stateManager.SetDifficulty(level);
    }

    /** `startGame`: only when not running; lays the tier's obstacles (none
        on EASY, which keeps whatever obstacles there were) and sets the
        game running and unpaused. Returns the draws the obstacles took. */
    method StartGame(draws: seq<Point>) returns (used: nat)
      requires Valid()
      requires |draws| >= MaxObstacleAttempts && AllInGrid(draws)
      modifies stateManager`obstacles, stateManager`gameRunning, stateManager`gamePaused
      ensures Valid()
      ensures old(stateManager.gameRunning) ==>
                && used == 0 && stateManager.gameRunning
                && stateManager.obstacles == old(stateManager.obstacles)
                && stateManager.gamePaused == old(stateManager.gamePaused)
      ensures !old(stateManager.gameRunning) ==> stateManager.gameRunning && !stateManager.gamePaused
      ensures !old(stateManager.gameRunning) && ObstacleCount(stateManager.difficulty) == 0 ==>
                used == 0 && stateManager.obstacles == old(stateManager.obstacles)
      ensures !old(stateManager.gameRunning) && ObstacleCount(stateManager.difficulty) > 0 ==>
                var count := ObstacleCount(stateManager.difficulty);
                && used <= MaxObstacleAttempts
                && stateManager.obstacles == Accepted(draws[..used], stateManager.snake, stateManager.food)
                && |stateManager.obstacles| <= count
                && (|stateManager.obstacles| == count || used == MaxObstacleAttempts)
                && (used > 0 ==> |Accepted(draws[..used - 1], stateManager.snake, stateManager.food)| < count)
                && forall j :: 0 <= j < |stateManager.obstacles| ==>
                     stateManager.obstacles[j] !in stateManager.snake && stateManager.obstacles[j] != stateManager.food
    {
      used := 0;
      if !stateManager.gameRunning {
        var count := ObstacleCount(stateManager.difficulty);
        if count > 0 {
          used := stateManager.GenerateObstacles(count, draws);
        }
        stateManager.gameRunning := true;
        stateManager.gamePaused := false;
      }
    }

    /** `togglePause`: flips the pause flag while running, else nothing. */
    method TogglePause()
      requires Valid()
      modifies stateManager`gamePaused
      ensures Valid()
      ensures old(stateManager.gameRunning) ==> stateManager.gamePaused == !old(stateManager.gamePaused)
      ensures !old(stateManager.gameRunning) ==> stateManager.gamePaused == old(stateManager.gamePaused)
    {
      if stateManager.gameRunning {
        stateManager.gamePaused := !stateManager.gamePaused;
      }
    }

    /** `resetGame`: the state is reset; the high score stays. */
    method ResetGame(draws: seq<Point>)
      requires |draws| > MaxFoodAttempts && AllInGrid(draws)
      modifies stateManager
      ensures Valid() && stateManager.IsReset(draws)
    {
      stateManager.Reset(draws);
    }

    /** `gameOver`: stop, and keep the better of the high score and the score. */
    method GameOver()
      requires Valid()
      modifies stateManager`gameRunning, this`highScore
      ensures Valid()
      ensures !stateManager.gameRunning
      ensures highScore == NewHighScore(old(highScore), stateManager.score)
    {
      stateManager.gameRunning := false;
      if stateManager.score > highScore {
        highScore := stateManager.score;
      }
    }

    /** `update`: commit the direction, move, then end the game on a
        collision, or eat (score, new food from `draws`, speed step), or pop
        the tail. On an empty snake it stops where the JavaScript throws,
        after the commit. */
    method Update(draws: seq<Point>) returns (outcome: TickOutcome)
      requires Valid()
      requires |draws| > MaxFoodAttempts && AllInGrid(draws)
      modifies stateManager`direction, stateManager`snake, stateManager`score, stateManager`food
      modifies stateManager`gameSpeed, stateManager`gameRunning, this`highScore
      ensures Valid()
      ensures stateManager.direction == old(stateManager.nextDirection)
      ensures var t := Tick(old(stateManager.snake), old(stateManager.nextDirection),
                            stateManager.hasUserInput, stateManager.obstacles, old(stateManager.food));
              outcome == t.outcome && stateManager.snake == t.snake
      ensures outcome == Collision ==>
                !stateManager.gameRunning && highScore == NewHighScore(old(highScore), stateManager.score)
      ensures outcome != Collision ==>
                stateManager.gameRunning == old(stateManager.gameRunning) && highScore == old(highScore)
      ensures outcome == FoodEaten ==>
                && stateManager.score == old(stateManager.score) + ScoreIncrement
                && stateManager.gameSpeed == StepSpeed(old(stateManager.gameSpeed))
                && stateManager.food == draws[FoodDrawCount(draws, stateManager.snake, stateManager.obstacles) - 1]
      ensures outcome != FoodEaten ==>
                && stateManager.score == old(stateManager.score)
                && stateManager.gameSpeed == old(stateManager.gameSpeed)
                && stateManager.food == old(stateManager.food)
    {
      stateManager.UpdateDirection();
      if stateManager.snake == [] {
        // `snake[0]` is undefined: moving or checking the head throws.
        return Fault;
      }
      stateManager.MoveSnake();
      if stateManager.CheckCollision() {
        GameOver();
        return Collision;
      }
      if stateManager.IsFoodEaten() {
        stateManager.IncreaseScore();
        var used;
        stateManager.food, used := stateManager.GenerateFood(draws);
        stateManager.IncreaseSpeed();
        return FoodEaten;
      }
      stateManager.RemoveTail();
      return TailRemoved;
    }

    /** `gameLoop` at `currentTime`: while running and unpaused, tick once
        the interval has elapsed since the last tick and record the time.
        A faulting tick throws out of the frame before the time is stored. */
    method GameLoop(currentTime: int, draws: seq<Point>) returns (ticked: Option<TickOutcome>)
      requires Valid()
      requires |draws| > MaxFoodAttempts && AllInGrid(draws)
      modifies stateManager`direction, stateManager`snake, stateManager`score, stateManager`food
      modifies stateManager`gameSpeed, stateManager`gameRunning, stateManager`lastRenderTime, this`highScore
      ensures Valid()
      ensures ticked.Some? <==>
                && old(stateManager.gameRunning) && !stateManager.gamePaused
                && Due(currentTime, old(stateManager.lastRenderTime), old(stateManager.gameSpeed))
      ensures ticked.None? ==>
                && stateManager.snake == old(stateManager.snake)
                && stateManager.direction == old(stateManager.direction)
                && stateManager.score == old(stateManager.score)
                && stateManager.food == old(stateManager.food)
                && stateManager.gameSpeed == old(stateManager.gameSpeed)
                && stateManager.gameRunning == old(stateManager.gameRunning)
                && stateManager.lastRenderTime == old(stateManager.lastRenderTime)
                && highScore == old(highScore)
      ensures ticked.Some? ==>
                && stateManager.direction == old(stateManager.nextDirection)
                && var t := Tick(old(stateManager.snake), old(stateManager.nextDirection),
                                 stateManager.hasUserInput, stateManager.obstacles, old(stateManager.food));
                   ticked.value == t.outcome && stateManager.snake == t.snake
      ensures ticked == Some(Collision) ==>
                !stateManager.gameRunning && highScore == NewHighScore(old(highScore), stateManager.score)
      ensures ticked.Some? && ticked.value != Collision ==>
                stateManager.gameRunning == old(stateManager.gameRunning) && highScore == old(highScore)
      ensures ticked == Some(FoodEaten) ==>
                && stateManager.score == old(stateManager.score) + ScoreIncrement
                && stateManager.gameSpeed == StepSpeed(old(stateManager.gameSpeed))
                && stateManager.food == draws[FoodDrawCount(draws, stateManager.snake, stateManager.obstacles) - 1]
      ensures ticked.Some? && ticked.value != FoodEaten ==>
                && stateManager.score == old(stateManager.score)
                && stateManager.gameSpeed == old(stateManager.gameSpeed)
                && stateManager.food == old(stateManager.food)
      ensures ticked.Some? && ticked.value != Fault ==> stateManager.lastRenderTime == currentTime
      ensures ticked == Some(Fault) ==> stateManager.lastRenderTime == old(stateManager.lastRenderTime)
    {
      ticked := None;
      if !stateManager.gameRunning || stateManager.gamePaused {
        return;
      }
      if currentTime - stateManager.lastRenderTime >= stateManager.gameSpeed {
        var outcome := Update(draws);
        ticked := Some(outcome);
        if outcome == Fault {
          return;
        }
        stateManager.lastRenderTime := currentTime;
      }
    }
  }
}
