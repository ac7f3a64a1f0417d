/** The single-class version of the game (`SnakeGame`): key presses turn
    `dx`/`dy` at once, the collision test runs on the new head before it is
    prepended, and the food sampler has no attempt cap. The board is
    `tileCount` cells on each axis. */
module Legacy {
  import opened Constants
  import opened State

  // ---------------------------------------------------------------------
  // Keys

  /** ASCII lower-casing of one character; other characters are kept. */
  function LowerChar(c: char): char {
    if 'A' <= c <= 'Z' then (c as int + 32) as char else c
  }

  /** `toLowerCase` on the ASCII letters. */
  function ToLower(s: string): (r: string)
    ensures |r| == |s|
    ensures forall i :: 0 <= i < |s| ==> r[i] == LowerChar(s[i])
    decreases |s|
  {
    if s == [] then [] else [LowerChar(s[0])] + ToLower(s[1..])
  }

  /** Lower-casing twice is lower-casing once. */
  lemma ToLowerIdempotent(s: string)
    ensures ToLower(ToLower(s)) == ToLower(s)
  {
    var once := ToLower(s);
    assert forall i :: 0 <= i < |once| ==> LowerChar(once[i]) == once[i];
  }

  /** From position `i` on, `key` lower-cased agrees with `word`. */
  predicate LowerFrom(key: string, word: string, i: nat)
    requires |key| == |word| && i <= |key|
    decreases |key| - i
  {
    i == |key| || (LowerChar(key[i]) == word[i] && LowerFrom(key, word, i + 1))
  }

  /** `key`, lower-cased, is `word`; decided character by character. */
  predicate LowerIs(key: string, word: string) {
    |key| == |word| && LowerFrom(key, word, 0)
  }

  lemma {:induction false} LowerFromMeans(key: string, word: string, i: nat)
    requires |key| == |word| && i <= |key|
    ensures LowerFrom(key, word, i) <==> forall j :: i <= j < |key| ==> LowerChar(key[j]) == word[j]
    decreases |key| - i
  {
    if i < |key| {
      LowerFromMeans(key, word, i + 1);
    }
  }

  /** The character-by-character test is the comparison of the lower-cased
      key with the word. */
  lemma LowerIsMeans(key: string, word: string)
    ensures LowerIs(key, word) <==> ToLower(key) == word
  {
    if |key| == |word| {
      LowerFromMeans(key, word, 0);
    }
  }

  /** The direction name a key selects in `handleKeyPress`: the lower-cased
      key is compared with the eight names of the `switch`. */
  function LegacyKey(key: string): Option<DirName> {
    if LowerIs(key, "arrowup") || LowerIs(key, "w") then Some(Up)
    else if LowerIs(key, "arrowdown") || LowerIs(key, "s") then Some(Down)
    else if LowerIs(key, "arrowleft") || LowerIs(key, "a") then Some(Left)
    else if LowerIs(key, "arrowright") || LowerIs(key, "d") then Some(Right)
    else None
  }

  /** Letters match in either case: a key and its lower-cased form select
      the same direction. */
  lemma LegacyKeyIgnoresCase(key: string)
    ensures LegacyKey(ToLower(key)) == LegacyKey(key)
  {
    var k := ToLower(key);
    ToLowerIdempotent(key);
    forall word | word in ["arrowup", "w", "arrowdown", "s", "arrowleft", "a", "arrowright", "d"]
      ensures LowerIs(k, word) == LowerIs(key, word)
    {
      LowerIsMeans(k, word);
      LowerIsMeans(key, word);
    }
  }

  lemma LegacyUpKeys()
    ensures LegacyKey("ArrowUp") == LegacyKey("ARROWUP") == LegacyKey("w") == LegacyKey("W") == Some(Up)
  {
  }

  lemma LegacyDownKeys()
    ensures LegacyKey("ArrowDown") == LegacyKey("s") == LegacyKey("S") == Some(Down)
  {
  }

  lemma LegacyLeftKeys()
    ensures LegacyKey("ArrowLeft") == LegacyKey("a") == LegacyKey("A") == Some(Left)
  {
  }

  lemma LegacyRightKeys()
    ensures LegacyKey("ArrowRight") == LegacyKey("d") == LegacyKey("D") == Some(Right)
  {
  }

  /** Every key of the modular table selects the same direction here; the
      converse fails, for instance for "ARROWUP". */
  lemma LegacyKeyExtendsKeyMap(key: string)
    ensures KeyMap(key).Some? ==> LegacyKey(key) == KeyMap(key)
    ensures LegacyKey("ARROWUP") == Some(Up) && KeyMap("ARROWUP") == None
  {
    KeyMapExact();
    LegacyUpKeys();
    LegacyDownKeys();
    LegacyLeftKeys();
    LegacyRightKeys();
    if key in KeyTable {
      if key == "ArrowUp" || key == "w" || key == "W" {
      } else if key == "ArrowDown" || key == "s" || key == "S" {
      } else if key == "ArrowLeft" || key == "a" || key == "A" {
      } else {
        assert key == "ArrowRight" || key == "d" || key == "D";
      }
    }
  }

  /** The new `(dx, dy)` after a press of a key naming `n`: a press is
      dropped only when the current motion is exactly opposite to it along
      its axis. */
  function Steer(d: Point, n: DirName): Point {
    match n
    case Up => if d.y != 1 then Point(0, -1) else d
    case Down => if d.y != -1 then Point(0, 1) else d
    case Left => if d.x != 1 then Point(-1, 0) else d
    case Right => if d.x != -1 then Point(1, 0) else d
  }

  /** One press either takes the named direction or leaves a motion that is
      its exact reverse, and it never turns a motion around. */
  lemma SteerOnePress(d: Point, n: DirName)
    requires IsUnit(d) || d == Zero
    ensures var r := Steer(d, n);
            && IsUnit(r)
            && (r == Direction(n) || (d == Direction(n).Neg() && r == d))
            && (d != Zero ==> r != d.Neg())
  {
  }

  /** Two presses within one tick can reverse any motion: there are always
      two names whose presses end on the opposite direction. */
  lemma LegacyDoubleTurnReverses(d: Point)
    requires IsUnit(d)
    ensures exists n1, n2 :: Steer(Steer(d, n1), n2) == d.Neg()
  {
    if d == Point(1, 0) { assert Steer(Steer(d, Up), Left) == d.Neg(); }
    else if d == Point(-1, 0) { assert Steer(Steer(d, Up), Right) == d.Neg(); }
    else if d == Point(0, 1) { assert Steer(Steer(d, Left), Up) == d.Neg(); }
    else { assert Steer(Steer(d, Left), Down) == d.Neg(); }
  }

  // ---------------------------------------------------------------------
  // The tick

  predicate AllOnBoard(cells: seq<Point>, n: int) {
    forall i :: 0 <= i < |cells| ==> OnBoard(cells[i], n)
  }

  /** `checkCollision(head)` on the snake before the head is prepended:
      off the board, or on any cell but the first. */
  predicate Blocked(head: Point, snake: seq<Point>, n: int)
    requires snake != []
  {
    !OnBoard(head, n) || head in snake[1..]
  }

  datatype Step = Crashed | Ate | Moved

  datatype StepResult = StepResult(step: Step, snake: seq<Point>)

  /** The snake and the outcome of one `update` moving by `d`. */
  function LegacyTick(snake: seq<Point>, d: Point, food: Point, n: int): StepResult
    requires snake != []
  {
    var head := snake[0].Plus(d);
    if Blocked(head, snake, n) then StepResult(Crashed, snake)
    else if head == food then StepResult(Ate, [head] + snake)
    else StepResult(Moved, [head] + snake[..|snake| - 1])
  }

  /** The shape of the snake after a tick: a crash leaves it as it was, a
      meal adds the head, and any other tick adds the head and drops the
      tail, so the length grows by one exactly on a meal. */
  lemma LegacyTickShape(snake: seq<Point>, d: Point, food: Point, n: int)
    requires snake != []
    ensures var t := LegacyTick(snake, d, food, n);
            var head := snake[0].Plus(d);
            && (t.step == Crashed <==> Blocked(head, snake, n))
            && (t.step == Ate <==> !Blocked(head, snake, n) && head == food)
            && (t.step == Crashed ==> t.snake == snake)
            && (t.step != Crashed ==> t.snake[0] == head && t.snake[1..] == snake[..|t.snake| - 1])
            && (t.step == Ate ==> |t.snake| == |snake| + 1)
            && (t.step == Moved ==> |t.snake| == |snake|)
  {
  }

  /** With no key pressed yet, a one-cell snake off the food stays where it
      is: the new head is its own cell, which the test skips. */
  lemma LegacyIdleTickKeepsSnake(cell: Point, food: Point, n: int)
    requires OnBoard(cell, n) && cell != food
    ensures LegacyTick([cell], Zero, food, n) == StepResult(Moved, [cell])
  {
    assert !Blocked(cell.Plus(Zero), [cell], n);
  }

  /** Moving onto the current tail is a crash, although the tail would have
      been dropped on this tick. */
  lemma LegacyTailCellBlocks(snake: seq<Point>, d: Point, food: Point, n: int)
    requires |snake| >= 2 && snake[0].Plus(d) == snake[|snake| - 1]
    ensures LegacyTick(snake, d, food, n).step == Crashed
  {
    assert snake[1..][|snake| - 2] == snake[|snake| - 1];
  }

  /** A snake moving by `d` whose second cell is behind its head crashes
      into it once two presses have reversed `d` within the tick. */
  lemma DoubleTurnCrashes(snake: seq<Point>, d: Point, n1: DirName, n2: DirName, food: Point, n: int)
    requires |snake| >= 2 && snake[1] == snake[0].Plus(d.Neg())
    requires Steer(Steer(d, n1), n2) == d.Neg()
    ensures LegacyTick(snake, Steer(Steer(d, n1), n2), food, n).step == Crashed
  {
    assert snake[1..][0] == snake[1];
  }

  // ---------------------------------------------------------------------
  // The game object

  class SnakeGame {
    /** Cells per axis: the canvas width over the cell size. */
    const tileCount: int
    var snake: seq<Point>
    var dx: int
    var dy: int
    var food: Point
    var score: int
    var gameRunning: bool
    var gamePaused: bool
    var gameSpeed: int
    var lastRenderTime: int
    var highScore: int

    ghost predicate Valid()
      reads this
    {
      && tileCount > 0
      && |snake| >= 1
      && (IsUnit(Point(dx, dy)) || (Point(dx, dy) == Zero && |snake| == 1))
      && food !in snake && OnBoard(food, tileCount)
      && score >= 0 && score % ScoreIncrement == 0
      && MinSpeed <= gameSpeed <= InitialSpeed && gameSpeed % SpeedIncrement == 0
    }

    /** A fresh game on a `tiles`-by-`tiles` board; `saved` is the stored
        high score, already parsed, or `None` when nothing is stored. */
    constructor (tiles: int, draws: seq<Point>, saved: Option<int>)
      requires tiles > 0 && AllOnBoard(draws, tiles)
      requires FirstFree(draws, [StartCell], []) < |draws|
      ensures Valid() && tileCount == tiles
      ensures snake == [StartCell] && dx == 0 && dy == 0
      ensures food == draws[FirstFree(draws, [StartCell], [])]
      ensures score == 0 && !gameRunning && !gamePaused
      ensures gameSpeed == InitialSpeed && lastRenderTime == 0
      ensures highScore == if saved.Some? then saved.value else 0
    {
      tileCount := tiles;
      new;
      Reset(draws);
      highScore := if saved.Some? then saved.value else 0;
    }

    /** `reset`: a one-cell snake at (10, 10), no motion, food from the
        draws, score 0, stopped, interval 150. The high score stays. */
    method Reset(draws: seq<Point>)
      requires tileCount > 0 && AllOnBoard(draws, tileCount)
      requires FirstFree(draws, [StartCell], []) < |draws|
      modifies this
      ensures Valid()
      ensures snake == [StartCell] && dx == 0 && dy == 0
      ensures food == draws[FirstFree(draws, [StartCell], [])]
      ensures score == 0 && !gameRunning && !gamePaused
      ensures gameSpeed == InitialSpeed && lastRenderTime == 0
      ensures highScore == old(highScore)
    {
      snake := [StartCell];
      dx, dy := 0, 0;
      var used;
      food, used := GenerateFood(draws);
      score, gameRunning, gamePaused := 0, false, false;
      gameSpeed, lastRenderTime := 150, 0;
    }

    /** `generateFood`: draw until a cell is off the snake. There is no cap:
        the loop ends only if some draw is free, which the caller promises.
        Returns the cell and the number of draws taken. */
    method GenerateFood(draws: seq<Point>) returns (newFood: Point, used: nat)
      requires AllOnBoard(draws, tileCount)
      requires FirstFree(draws, snake, []) < |draws|
      ensures used == FirstFree(draws, snake, []) + 1
      ensures newFood == draws[used - 1]
      ensures newFood !in snake && OnBoard(newFood, tileCount)
    {
      var i := 0;
      newFood := draws[0];
      while newFood in snake
        invariant 0 <= i <= FirstFree(draws, snake, [])
        invariant newFood == draws[i]
        decreases FirstFree(draws, snake, []) - i
      {
        i := i + 1;
        newFood := draws[i];
      }
      used := i + 1;
      assert IsFree(draws[i], snake, []);
    }

    /** `handleKeyPress`: while running and not paused, a key naming a
        direction steers at once; other keys are ignored. */
    method HandleKeyPress(key: string)
      requires Valid()
      modifies this`dx, this`dy
      ensures Valid()
      ensures !gameRunning || gamePaused || LegacyKey(key).None? ==> dx == old(dx) && dy == old(dy)
      ensures gameRunning && !gamePaused && LegacyKey(key).Some? ==>
                Point(dx, dy) == Steer(Point(old(dx), old(dy)), LegacyKey(key).value)
    {
      if !gameRunning || gamePaused {
        return;
      }
      var k := ToLower(key);
      LowerIsMeans(key, "arrowup"); LowerIsMeans(key, "w");
      LowerIsMeans(key, "arrowdown"); LowerIsMeans(key, "s");
      LowerIsMeans(key, "arrowleft"); LowerIsMeans(key, "a");
      LowerIsMeans(key, "arrowright"); LowerIsMeans(key, "d");
      if k == "arrowup" || k == "w" {
        if dy != 1 {
          dx, dy := 0, -1;
        }
      } else if k == "arrowdown" || k == "s" {
        if dy != -1 {
          dx, dy := 0, 1;
        }
      } else if k == "arrowleft" || k == "a" {
        if dx != 1 {
          dx, dy := -1, 0;
        }
      } else if k == "arrowright" || k == "d" {
        if dx != -1 {
          dx, dy := 1, 0;
        }
      }
    }

    /** `startGame`: only when not running; runs and unpauses. */
    method StartGame()
      requires Valid()
      modifies this`gameRunning, this`gamePaused
      ensures Valid()
      ensures old(gameRunning) ==> gameRunning && gamePaused == old(gamePaused)
      ensures !old(gameRunning) ==> gameRunning && !gamePaused
    {
      if !gameRunning {
        gameRunning := true;
        gamePaused := false;
      }
    }

    /** `togglePause`: flips the pause flag while running, else nothing. */
    method TogglePause()
      requires Valid()
      modifies this`gamePaused
      ensures Valid()
      ensures gameRunning ==> gamePaused == !old(gamePaused)
      ensures !gameRunning ==> gamePaused == old(gamePaused)
    {
      if gameRunning {
        gamePaused := !gamePaused;
      }
    }

    /** `resetGame`. */
    method ResetGame(draws: seq<Point>)
      requires tileCount > 0 && AllOnBoard(draws, tileCount)
      requires FirstFree(draws, [StartCell], []) < |draws|
      modifies this
      ensures Valid()
      ensures snake == [StartCell] && dx == 0 && dy == 0
      ensures food == draws[FirstFree(draws, [StartCell], [])]
      ensures score == 0 && !gameRunning && !gamePaused
      ensures gameSpeed == InitialSpeed && lastRenderTime == 0
      ensures highScore == old(highScore)
    {
      Reset(draws);
    }

    /** `checkCollision`: the head is off the board or on a cell of the
        snake other than the first. */
    method CheckCollision(head: Point) returns (hit: bool)
      requires snake != []
      ensures hit == Blocked(head, snake, tileCount)
      ensures hit <==>
        || head.x < 0 || head.x >= tileCount || head.y < 0 || head.y >= tileCount
        || exists i :: 1 <= i < |snake| && snake[i] == head
    {
      if head.x < 0 || head.x >= tileCount || head.y < 0 || head.y >= tileCount {
        return true;
      }
      for i := 1 to |snake|
        invariant forall j :: 1 <= j < i ==> snake[j] != head
      {
        if head.x == snake[i].x && head.y == snake[i].y {
          assert snake[1..][i - 1] == snake[i];
          return true;
        }
      }
      return false;
    }

    /** `gameOver`: stop, and keep the better of the high score and the score. */
    method GameOver()
      requires Valid()
      modifies this`gameRunning, this`highScore
      ensures Valid()
      ensures !gameRunning
      ensures highScore == NewHighScore(old(highScore), score)
    {
      gameRunning := false;
      if score > highScore {
        highScore := score;
      }
    }

    /** `update`: the head one step along `(dx, dy)`; a crash ends the game
        and changes nothing else; otherwise the head is prepended and either
        eaten food is replaced from `draws`, with score and speed steps, or
        the tail is popped. */
    method Update(draws: seq<Point>) returns (step: Step)
      requires Valid() && AllOnBoard(draws, tileCount)
      requires var t := LegacyTick(snake, Point(dx, dy), food, tileCount);
               t.step == Ate ==> FirstFree(draws, t.snake, []) < |draws|
      modifies this`snake, this`food, this`score, this`gameSpeed, this`gameRunning, this`highScore
      ensures Valid()
      ensures var t := LegacyTick(old(snake), Point(dx, dy), old(food), tileCount);
              step == t.step && snake == t.snake
      ensures step == Crashed ==>
                !gameRunning && highScore == NewHighScore(old(highScore), score)
      ensures step != Crashed ==> gameRunning == old(gameRunning) && highScore == old(highScore)
      ensures step == Ate ==>
                && score == old(score) + ScoreIncrement
                && gameSpeed == StepSpeed(old(gameSpeed))
                && food == draws[FirstFree(draws, snake, [])]
      ensures step != Ate ==> score == old(score) && gameSpeed == old(gameSpeed) && food == old(food)
    {
      var head := Point(snake[0].x + dx, snake[0].y + dy);
      var hit := CheckCollision(head);
      if hit {
        GameOver();
        return Crashed;
      }
      snake := [head] + snake;
      if head.x == food.x && head.y == food.y {
        score := score + 10;
        var used;
        food, used := GenerateFood(draws);
        if gameSpeed > 80 {
          gameSpeed := gameSpeed - 5;
        }
        return Ate;
      }
      snake := snake[..|snake| - 1];
      return Moved;
    }

    /** `gameLoop` at `currentTime`: while running and unpaused, tick once
        the interval has elapsed since the last tick and record the time. */
    method GameLoop(currentTime: int, draws: seq<Point>) returns (ticked: Option<Step>)
      requires Valid() && AllOnBoard(draws, tileCount)
      requires var t := LegacyTick(snake, Point(dx, dy), food, tileCount);
               t.step == Ate ==> FirstFree(draws, t.snake, []) < |draws|
      modifies this`snake, this`food, this`score, this`gameSpeed, this`gameRunning
      modifies this`lastRenderTime, this`highScore
      ensures Valid()
      ensures ticked.Some? <==>
                old(gameRunning) && !gamePaused && currentTime - old(lastRenderTime) >= old(gameSpeed)
      ensures ticked.None? ==>
                && snake == old(snake) && food == old(food) && score == old(score)
                && gameSpeed == old(gameSpeed) && gameRunning == old(gameRunning)
                && lastRenderTime == old(lastRenderTime) && highScore == old(highScore)
      ensures ticked.Some? ==>
                && ticked.value == LegacyTick(old(snake), Point(dx, dy), old(food), tileCount).step
                && snake == LegacyTick(old(snake), Point(dx, dy), old(food), tileCount).snake
                && lastRenderTime == currentTime
      ensures ticked == Some(Crashed) ==> !gameRunning && highScore == NewHighScore(old(highScore), score)
      ensures ticked.Some? && ticked.value != Crashed ==>
                gameRunning == old(gameRunning) && highScore == old(highScore)
      ensures ticked == Some(Ate) ==>
                && score == old(score) + ScoreIncrement
                && gameSpeed == StepSpeed(old(gameSpeed))
                && food == draws[FirstFree(draws, snake, [])]
      ensures ticked.Some? && ticked.value != Ate ==>
                score == old(score) && gameSpeed == old(gameSpeed) && food == old(food)
    {
      ticked := None;
      if !gameRunning || gamePaused {
        return;
      }
      if currentTime - lastRenderTime >= gameSpeed {
        var step := Update(draws);
        ticked := Some(step);
        lastRenderTime := currentTime;
      }
    }
  }
}
