/** The modular version's game state (`StateManager`): direction buffering
    with reversal rejection, movement, the two rejection samplers, score and
    speed steps, and the collision and food queries. Each `Math.random` cell
    draw is one element of an explicit `draws` sequence of board cells. */
module State {
  import opened Constants

  const StartCell := Point(10, 10)
  /** Draws after which the food sampler stops rejecting (it then takes one more). */
  const MaxFoodAttempts := 100
  /** Draws the obstacle sampler may take for a whole batch. */
  const MaxObstacleAttempts := 200

  predicate Distinct(cells: seq<Point>) {
    forall i, j :: 0 <= i < j < |cells| ==> cells[i] != cells[j]
  }

  // ---------------------------------------------------------------------
  // Direction buffering

  /** The reversal test of `setDirection`: some axis of the request is +-1
      where the committed direction has the opposite sign. */
  predicate Reverses(req: Point, dir: Point) {
    || (req.x == 1 && dir.x == -1)
    || (req.x == -1 && dir.x == 1)
    || (req.y == 1 && dir.y == -1)
    || (req.y == -1 && dir.y == 1)
  }

  /** For the four directions (and no direction yet), the test rejects
      exactly the request that negates the committed direction. */
  lemma ReversesIsNegation(req: Point, dir: Point)
    requires IsUnit(req) && (IsUnit(dir) || dir == Zero)
    ensures Reverses(req, dir) <==> req == dir.Neg() && dir != Zero
  {
  }

  /** The pending direction after one `setDirection(req)`. */
  function Pending(dir: Point, next: Point, req: Point): Point {
    if Reverses(req, dir) then next else req
  }

  /** The pending direction after a run of `setDirection` calls between
      two commits. */
  function PendingAfter(dir: Point, next: Point, reqs: seq<Point>): Point
    decreases |reqs|
  {
    if reqs == [] then next else PendingAfter(dir, Pending(dir, next, reqs[0]), reqs[1..])
  }

  /** However many requests arrive between two commits, the pending
      direction never reverses the committed one, so the next commit never
      turns the snake around. */
  lemma {:induction false} PendingNeverReverses(dir: Point, next: Point, reqs: seq<Point>)
    requires !Reverses(next, dir)
    ensures !Reverses(PendingAfter(dir, next, reqs), dir)
    decreases |reqs|
  {
    if reqs != [] {
      PendingNeverReverses(dir, Pending(dir, next, reqs[0]), reqs[1..]);
    }
  }

  /** RIGHT committed, LEFT requested: the request is dropped and the next
      commit keeps RIGHT. */
  lemma ReverseRequestDropped()
    ensures PendingAfter(Direction(Right), Direction(Right), [Direction(Left)]) == Direction(Right)
  {
  }

  // ---------------------------------------------------------------------
  // Movement

  /** Whether `moveSnake` prepends a head: it stays put only while no input
      was accepted and the direction is zero. */
  predicate Moves(dir: Point, hasInput: bool) {
    hasInput || dir != Zero
  }

  /** The snake after `moveSnake`. */
  function Advance(snake: seq<Point>, dir: Point, hasInput: bool): (r: seq<Point>)
    requires Moves(dir, hasInput) ==> snake != []
    ensures Moves(dir, hasInput) ==> |r| == |snake| + 1 && r[1..] == snake && r[0] == snake[0].Plus(dir)
    ensures !Moves(dir, hasInput) ==> r == snake
  {
    if Moves(dir, hasInput) then [snake[0].Plus(dir)] + snake else snake
  }

  // ---------------------------------------------------------------------
  // Samplers

  predicate IsFree(p: Point, snake: seq<Point>, obstacles: seq<Point>) {
    p !in snake && p !in obstacles
  }

  /** The index of the first draw that is on neither the snake nor an
      obstacle, or `|ds|` when there is none. */
  function FirstFree(ds: seq<Point>, snake: seq<Point>, obstacles: seq<Point>): (i: nat)
    ensures i <= |ds|
    ensures i < |ds| ==> IsFree(ds[i], snake, obstacles)
    ensures forall j :: 0 <= j < i ==> !IsFree(ds[j], snake, obstacles)
    decreases |ds|
  {
    if ds == [] || IsFree(ds[0], snake, obstacles) then 0
    else 1 + FirstFree(ds[1..], snake, obstacles)
  }

  /** An index with the stopping property of `FirstFree` is `FirstFree`. */
  lemma {:induction false} FirstFreeIs(ds: seq<Point>, snake: seq<Point>, obstacles: seq<Point>, i: nat)
    requires i <= |ds|
    requires i < |ds| ==> IsFree(ds[i], snake, obstacles)
    requires forall j :: 0 <= j < i ==> !IsFree(ds[j], snake, obstacles)
    ensures FirstFree(ds, snake, obstacles) == i
    decreases |ds|
  {
    if i > 0 {
      assert !IsFree(ds[0], snake, obstacles);
      assert forall j :: 0 <= j < i - 1 ==> ds[1..][j] == ds[j + 1];
      FirstFreeIs(ds[1..], snake, obstacles, i - 1);
    }
  }

  /** How many draws `generateFood` takes: up to the first free cell among
      the first 100 draws, or 101 when all of those are occupied (the 101st
      is then taken whatever it is). */
  function FoodDrawCount(draws: seq<Point>, snake: seq<Point>, obstacles: seq<Point>): (n: nat)
    requires |draws| > MaxFoodAttempts
    ensures 1 <= n <= MaxFoodAttempts + 1
    ensures n <= MaxFoodAttempts ==> IsFree(draws[n - 1], snake, obstacles)
    ensures forall j :: 0 <= j < n - 1 ==> !IsFree(draws[j], snake, obstacles)
  {
    FirstFree(draws[..MaxFoodAttempts], snake, obstacles) + 1
  }

  /** The obstacles `generateObstacles` keeps from a run of draws: each draw
      that is on neither the snake, the food nor an obstacle kept before. */
  function Accepted(ds: seq<Point>, snake: seq<Point>, food: Point): (placed: seq<Point>)
    ensures |placed| <= |ds|
    decreases |ds|
  {
    if ds == [] then []
    else
      var prev := Accepted(ds[..|ds| - 1], snake, food);
      var o := ds[|ds| - 1];
      if o !in snake && o != food && o !in prev then prev + [o] else prev
  }

  /** Adding a draw adds at most one obstacle. */
  lemma AcceptedStep(ds: seq<Point>, k: nat, snake: seq<Point>, food: Point)
    requires k < |ds|
    ensures var prev := Accepted(ds[..k], snake, food);
            var o := ds[k];
            Accepted(ds[..k + 1], snake, food) ==
              if o !in snake && o != food && o !in prev then prev + [o] else prev
  {
    assert ds[..k + 1][..k] == ds[..k];
  }

  /** The kept obstacles are drawn cells, pairwise distinct, and on neither
      the snake nor the food. */
  lemma {:induction false} AcceptedPlacement(ds: seq<Point>, snake: seq<Point>, food: Point)
    ensures var placed := Accepted(ds, snake, food);
            && Distinct(placed)
            && (forall j :: 0 <= j < |placed| ==> placed[j] in ds && placed[j] !in snake && placed[j] != food)
            && (AllInGrid(ds) ==> AllInGrid(placed))
    decreases |ds|
  {
    if ds != [] {
      var init := ds[..|ds| - 1];
      AcceptedPlacement(init, snake, food);
      var prev := Accepted(init, snake, food);
      var placed := Accepted(ds, snake, food);
      assert forall j :: 0 <= j < |prev| ==> prev[j] in ds by {
        forall j | 0 <= j < |prev| ensures prev[j] in ds {
          assert prev[j] in init;
        }
      }
      assert AllInGrid(ds) ==> AllInGrid(placed) by {
        if AllInGrid(ds) {
          forall j | 0 <= j < |placed| ensures InGrid(placed[j]) {
            var i :| 0 <= i < |ds| && ds[i] == placed[j];
          }
        }
      }
    }
  }

  // ---------------------------------------------------------------------
  // Score, speed and collisions

  /** The tick interval after `increaseSpeed`: five less while above the
      minimum, otherwise unchanged. */
  function StepSpeed(speed: int): (r: int)
    ensures r <= speed
    ensures r < speed <==> speed > MinSpeed
    ensures r < speed ==> r == speed - SpeedIncrement
    ensures speed > MinSpeed ==> r > MinSpeed - SpeedIncrement
  {
    if speed > MinSpeed then speed - SpeedIncrement else speed
  }

  /** The tick intervals a game can be at: a tier's interval, or one
      reached from it in steps of five, never below the minimum. */
  predicate ReachableSpeed(s: int) {
    s == TierSpeed(Expert) || (MinSpeed <= s <= TierSpeed(Easy) && s % SpeedIncrement == 0)
  }

  /** Every tier starts at a reachable interval, and stepping keeps it
      reachable, so the interval never falls below the minimum unless the
      tier itself was below it (EXPERT, which never changes). */
  lemma SpeedFloor(s: int, d: Difficulty)
    requires ReachableSpeed(s)
    ensures ReachableSpeed(TierSpeed(d))
    ensures ReachableSpeed(StepSpeed(s))
    ensures StepSpeed(s) >= MinSpeed || StepSpeed(s) == s
    ensures StepSpeed(TierSpeed(Expert)) == TierSpeed(Expert)
  {
  }

  /** `checkCollision` on a snake whose head is already prepended. */
  predicate Collides(snake: seq<Point>, obstacles: seq<Point>)
    requires snake != []
    ensures Collides(snake, obstacles) <==>
      || !(0 <= snake[0].x < Columns && 0 <= snake[0].y < Rows)
      || (exists i :: 1 <= i < |snake| && snake[i] == snake[0])
      || (exists j :: 0 <= j < |obstacles| && obstacles[j] == snake[0])
  {
    var head := snake[0];
    !InGrid(head) || head in snake[1..] || head in obstacles
  }

  /** Moving onto the current tail is a collision, even though the tail
      would have been popped on this tick. */
  lemma TailCellBlocks(snake: seq<Point>, obstacles: seq<Point>)
    requires snake != []
    ensures Collides([snake[|snake| - 1]] + snake, obstacles)
  {
    var moved := [snake[|snake| - 1]] + snake;
    assert moved[|moved| - 1] == moved[0];
  }

  // ---------------------------------------------------------------------
  // The state object

  class StateManager {
    var snake: seq<Point>
    var direction: Point
    var nextDirection: Point
    var obstacles: seq<Point>
    var food: Point
    var score: int
    var gameRunning: bool
    var gamePaused: bool
    var gameSpeed: int
    var difficulty: Difficulty
    var lastRenderTime: int
    var hasUserInput: bool

    ghost predicate Valid()
      reads this
    {
      && !Reverses(nextDirection, direction)
      && (!hasUserInput ==> direction == Zero && nextDirection == Zero)
      && InGrid(food)
      && AllInGrid(obstacles) && Distinct(obstacles)
      && ReachableSpeed(gameSpeed)
      && score >= 0 && score % ScoreIncrement == 0
    }

    /** The state right after `reset`, given the draws its food sampler saw. */
    ghost predicate IsReset(draws: seq<Point>)
      requires |draws| > MaxFoodAttempts
      reads this
    {
      && snake == [StartCell]
      && direction == Zero && nextDirection == Zero && !hasUserInput
      && obstacles == []
      && food == draws[FoodDrawCount(draws, snake, obstacles) - 1]
      && score == 0 && !gameRunning && !gamePaused
      && gameSpeed == InitialSpeed && difficulty == Medium
      && lastRenderTime == 0
    }

    constructor (draws: seq<Point>)
      requires |draws| > MaxFoodAttempts && AllInGrid(draws)
      ensures Valid() && IsReset(draws)
    {
      new;
      Reset(draws);
    }

    /** `reset`: back to a one-cell snake at (10, 10) with no direction and
        no obstacles; the difficulty returns to MEDIUM whatever it was. */
    method Reset(draws: seq<Point>)
      requires |draws| > MaxFoodAttempts && AllInGrid(draws)
      modifies this
      ensures Valid() && IsReset(draws)
      ensures FoodDrawCount(draws, snake, obstacles) <= MaxFoodAttempts ==> food != StartCell
    {
      snake, direction, nextDirection, obstacles := [StartCell], Zero, Zero, [];
      var used;
      food, used := GenerateFood(draws);
      score, gameRunning, gamePaused := 0, false, false;
      gameSpeed, difficulty := InitialSpeed, Medium;
      lastRenderTime, hasUserInput := 0, false;
    }

    /** `setDifficulty`: the tier and its tick interval. */
    method SetDifficulty(level: Difficulty)
      requires Valid()
      modifies this`difficulty, this`gameSpeed
      ensures Valid()
      ensures difficulty == level && gameSpeed == TierSpeed(level)
    {
      difficulty := level;
      gameSpeed := DifficultyLevel(level).speed;
    }

    /** `getDifficulty`: the table entry of the current tier. */
    function GetDifficulty(): (l: Level)
      reads this
      ensures l.speed == TierSpeed(difficulty) && l.name != []
    {
      DifficultyLevel(difficulty)
    }

    /** `setDirection`: a request reversing the committed direction is
        dropped; any other becomes the pending direction and records that
        the player has given input. */
    method SetDirection(req: Point)
      requires Valid()
      modifies this`nextDirection, this`hasUserInput
      ensures Valid()
      ensures Reverses(req, direction) ==>
                nextDirection == old(nextDirection) && hasUserInput == old(hasUserInput)
      ensures !Reverses(req, direction) ==> nextDirection == req && hasUserInput
      ensures nextDirection == Pending(direction, old(nextDirection), req)
    {
      if || (req.x == 1 && direction.x == -1)
         || (req.x == -1 && direction.x == 1)
         || (req.y == 1 && direction.y == -1)
         || (req.y == -1 && direction.y == 1)
      {
        return;
      }
      nextDirection := req;
      hasUserInput := true;
    }

    /** `updateDirection`: commit the pending direction; the new direction
        never reverses the one it replaces. */
    method UpdateDirection()
      requires Valid()
      modifies this`direction
      ensures Valid()
      ensures direction == nextDirection
      ensures !Reverses(direction, old(direction))
    {
      direction := nextDirection;
    }

    /** `moveSnake`: prepend `head + direction`, unless no input has been
        accepted and the direction is zero. The JavaScript reads `snake[0]`
        only when it moves, so only then must the snake be non-empty. */
    method MoveSnake()
      requires Valid()
      requires Moves(direction, hasUserInput) ==> snake != []
      modifies this`snake
      ensures Valid()
      ensures snake == Advance(old(snake), direction, hasUserInput)
      ensures Moves(direction, hasUserInput) ==>
                |snake| == |old(snake)| + 1 && snake[1..] == old(snake)
                && snake[0] == old(snake)[0].Plus(direction)
      ensures !Moves(direction, hasUserInput) ==> snake == old(snake)
    {
      if !hasUserInput && direction.x == 0 && direction.y == 0 {
        return;
      }
      var head := Point(snake[0].x + direction.x, snake[0].y + direction.y);
      snake := [head] + snake;
    }

    /** `generateFood`: draw until a cell is on neither the snake nor an
        obstacle, giving up after the 101st draw. Returns the cell and the
        number of draws taken; the state is not changed. */
    method GenerateFood(draws: seq<Point>) returns (newFood: Point, used: nat)
      requires |draws| > MaxFoodAttempts && AllInGrid(draws)
      ensures used == FoodDrawCount(draws, snake, obstacles)
      ensures 1 <= used <= MaxFoodAttempts + 1 && newFood == draws[used - 1]
      ensures InGrid(newFood)
      ensures used <= MaxFoodAttempts ==> newFood !in snake && newFood !in obstacles
    {
      newFood := draws[0];
      var attempts := 1;
      while attempts <= MaxFoodAttempts && !IsFree(newFood, snake, obstacles)
        invariant 1 <= attempts <= MaxFoodAttempts + 1
        invariant newFood == draws[attempts - 1]
        invariant forall j :: 0 <= j < attempts - 1 ==> !IsFree(draws[j], snake, obstacles)
        decreases MaxFoodAttempts + 1 - attempts
      {
        newFood := draws[attempts];
        attempts := attempts + 1;
      }
      used := attempts;
      FirstFreeIs(draws[..MaxFoodAttempts], snake, obstacles, used - 1);
    }

    /** `generateObstacles`: replace the obstacles with up to `count` cells,
        each on neither the snake, the food nor another obstacle, taking at
        most 200 draws for the whole batch. Returns the number of draws. */
    method GenerateObstacles(count: nat, draws: seq<Point>) returns (used: nat)
      requires Valid()
      requires |draws| >= MaxObstacleAttempts && AllInGrid(draws)
      modifies this`obstacles
      ensures Valid()
      ensures used <= MaxObstacleAttempts
      ensures obstacles == Accepted(draws[..used], snake, food)
      ensures |obstacles| <= count
      ensures |obstacles| == count || used == MaxObstacleAttempts
      ensures used > 0 ==> |Accepted(draws[..used - 1], snake, food)| < count
      ensures AllInGrid(obstacles) && Distinct(obstacles)
      ensures forall j :: 0 <= j < |obstacles| ==> obstacles[j] !in snake && obstacles[j] != food
    {
      // The batch is built in a local sequence and stored once; the
      // other-obstacle test reads the batch drawn so far, kept in `placed`.
      var placed := [];
      var attempts := 0;
      var i := 0;
      while i < count && attempts < MaxObstacleAttempts
        invariant 0 <= attempts <= MaxObstacleAttempts
        invariant placed == Accepted(draws[..attempts], snake, food)
        invariant |placed| <= i <= count
        invariant |placed| == i || attempts == MaxObstacleAttempts
        invariant attempts > 0 ==> |Accepted(draws[..attempts - 1], snake, food)| < count
      {
        var valid := false;
        while !valid && attempts < MaxObstacleAttempts
          invariant 0 <= attempts <= MaxObstacleAttempts
          invariant placed == Accepted(draws[..attempts], snake, food)
          invariant |placed| == if valid then i + 1 else i
          invariant attempts > 0 ==> |Accepted(draws[..attempts - 1], snake, food)| < count
        {
          var o := draws[attempts];
          AcceptedStep(draws, attempts, snake, food);
          ghost var before := attempts;
          assert |Accepted(draws[..before], snake, food)| < count;
          if o !in snake && o != food && o !in placed {
            valid := true;
            placed := placed + [o];
          }
          attempts := attempts + 1;
          assert draws[..attempts - 1] == draws[..before];
        }
        i := i + 1;
      }
      used := attempts;
      assert AllInGrid(draws[..used]);
      AcceptedPlacement(draws[..used], snake, food);
      obstacles := placed;
    }

    /** `removeTail`: `pop`, which leaves an empty snake empty. */
    method RemoveTail()
      requires Valid()
      modifies this`snake
      ensures Valid()
      ensures old(snake) != [] ==> snake == old(snake)[..|old(snake)| - 1]
      ensures old(snake) == [] ==> snake == []
    {
      if snake != [] {
        snake := snake[..|snake| - 1];
      }
    }

    method IncreaseScore()
      requires Valid()
      modifies this`score
      ensures Valid()
      ensures score == old(score) + ScoreIncrement
    {
      score := score + ScoreIncrement;
    }

    method IncreaseSpeed()
      requires Valid()
      modifies this`gameSpeed
      ensures Valid()
      ensures gameSpeed == StepSpeed(old(gameSpeed))
      ensures gameSpeed <= old(gameSpeed)
    {
      SpeedFloor(gameSpeed, difficulty);
      if gameSpeed > MinSpeed {
        gameSpeed := gameSpeed - SpeedIncrement;
      }
    }

    /** `isFoodEaten`: the head is on the food. */
    predicate IsFoodEaten()
      requires snake != []
      reads this
      ensures IsFoodEaten() <==> snake[0].x == food.x && snake[0].y == food.y
    {
      snake[0] == food
    }

    /** `checkCollision`: see `Collides`. */
    predicate CheckCollision()
      requires snake != []
      reads this
    {
      Collides(snake, obstacles)
    }
  }
}
