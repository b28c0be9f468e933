/**
 * The game state of snake.js and the operations that change it: reset,
 * obstacle and food placement, the tick, game over, the direction key
 * handler and the difficulty setter. The module-level variables of the
 * source are the fields of one Game object.
 */
module SnakeGame {

  import opened Wrappers
  import opened Grid
  import Input
  import Difficulty
  import opened Placement

  const INITIAL_SNAKE: seq<Cell> := [Cell(9, 9), Cell(8, 9), Cell(7, 9)]

  /** The repeating interval that drives `tick`: cleared, or firing `fps` times a second. */
  datatype Timer = Stopped | Every(fps: nat)

  /** A tick whose candidate head is on an obstacle or anywhere on the pre-move body ends the game. */
  predicate Collides(head: Cell, body: seq<Cell>, obstacles: seq<Cell>)
    ensures Collides(head, body, obstacles) <==> !Free(head, body, obstacles)
  {
    head in obstacles || head in body
  }

  /**
   * The source tests membership with `.some` over the x and y fields; that
   * scan answers exactly what Collides does: first the obstacles, then the body.
   */
  lemma CollidesIsFieldScan(head: Cell, body: seq<Cell>, obstacles: seq<Cell>)
    ensures Collides(head, body, obstacles) <==>
              || (exists i :: 0 <= i < |obstacles| && obstacles[i].x == head.x && obstacles[i].y == head.y)
              || (exists i :: 0 <= i < |body| && body[i].x == head.x && body[i].y == head.y)
  {
  }

  /** The body after a move that does not collide: the head is pushed, and the tail dropped unless it eats. */
  function Moved(body: seq<Cell>, head: Cell, eats: bool): (r: seq<Cell>)
    requires |body| > 0
    ensures |r| == |body| + (if eats then 1 else 0)
    ensures r[0] == head && r[1..] == body[..|r| - 1]
  {
    if eats then [head] + body else [head] + body[..|body| - 1]
  }

  /**
   * A move keeps the body a non-empty sequence of distinct cells in the
   * grid; it grows by one cell exactly when the snake eats, and every cell
   * of it is the new head or a cell of the old body.
   */
  lemma MovedKeepsBody(body: seq<Cell>, head: Cell, eats: bool)
    requires |body| > 0 && Distinct(body) && AllInBounds(body)
    requires InBounds(head) && head !in body
    ensures |Moved(body, head, eats)| == |body| + (if eats then 1 else 0)
    ensures Moved(body, head, eats)[0] == head
    ensures Distinct(Moved(body, head, eats)) && AllInBounds(Moved(body, head, eats))
    ensures forall c :: c in Moved(body, head, eats) ==> c == head || c in body
  {
    var r := Moved(body, head, eats);
    var rest := if eats then body else body[..|body| - 1];
    assert r == [head] + rest;
    assert forall i :: 0 <= i < |rest| ==> rest[i] == body[i];
    forall i, j | 0 <= i < j < |r| ensures r[i] != r[j] {
      if i == 0 {
        assert r[j] == body[j - 1];
      } else {
        assert r[i] == body[i - 1] && r[j] == body[j - 1];
      }
    }
  }

  class Game {
    var snake: seq<Cell>
    var dir: Cell
    var food: Cell
    var obstacles: seq<Cell>
    var score: nat
    var running: bool
    var fps: nat
    var currentDifficulty: string
    var timer: Timer
    /** How many times the interval has been (re)started. */
    var timerStarts: nat

    /** The board: snake, obstacles and food are in the grid and never overlap. */
    ghost predicate Board()
      reads this
    {
      && |snake| >= 1 && AllInBounds(snake) && Distinct(snake)
      && IsUnit(dir)
      && |obstacles| == NUM_OBSTACLES && AllInBounds(obstacles) && Distinct(obstacles)
      && (forall i :: 0 <= i < |obstacles| ==> obstacles[i] !in snake)
      && InBounds(food) && Free(food, snake, obstacles)
    }

    /** The level is one of the table's, and the interval runs exactly while the game runs. */
    ghost predicate Settings()
      reads this
    {
      && Difficulty.Fps(currentDifficulty) == Some(fps)
      && timer == (if running then Every(fps) else Stopped)
    }

    ghost predicate Valid()
      reads this
    {
      Board() && Settings()
    }

    /**
     * The start-up of the page: the module-level initial values, the call
     * setDifficulty(currentDifficulty) while no game runs yet, then reset().
     */
    constructor (obstacleDraws: seq<Cell>, foodDraws: seq<Cell>)
      requires AllInBounds(obstacleDraws) && AllInBounds(foodDraws)
      requires Enough(CellSet(INITIAL_SNAKE), obstacleDraws, [])
      requires HasFree(foodDraws, INITIAL_SNAKE, Sample(CellSet(INITIAL_SNAKE), obstacleDraws, []))
      ensures Valid()
      ensures snake == INITIAL_SNAKE && dir == RIGHT && score == 0 && running
      ensures obstacles == Sample(CellSet(INITIAL_SNAKE), obstacleDraws, [])
      ensures food == foodDraws[FirstFree(foodDraws, snake, obstacles)]
      ensures currentDifficulty == Difficulty.INTERMEDIATE && fps == 10
      ensures timer == Every(10) && timerStarts == 1
    {
      snake, dir, food, score, running := [], Cell(0, 0), Cell(0, 0), 0, false;
      obstacles := [];
      fps := 10;
      currentDifficulty := Difficulty.INTERMEDIATE;
      timer, timerStarts := Stopped, 0;
      new;
      SetDifficulty(currentDifficulty);
      Reset(obstacleDraws, foodDraws);
    }

    /** Starts a new session: fixed snake and direction, new obstacles and food, score 0. */
    method Reset(obstacleDraws: seq<Cell>, foodDraws: seq<Cell>)
      requires Difficulty.Fps(currentDifficulty) == Some(fps)
      requires AllInBounds(obstacleDraws) && AllInBounds(foodDraws)
      requires Enough(CellSet(INITIAL_SNAKE), obstacleDraws, [])
      requires HasFree(foodDraws, INITIAL_SNAKE, Sample(CellSet(INITIAL_SNAKE), obstacleDraws, []))
      modifies this
      ensures Valid()
      ensures snake == INITIAL_SNAKE && dir == RIGHT && score == 0 && running
      ensures obstacles == Sample(CellSet(INITIAL_SNAKE), obstacleDraws, [])
      ensures food == foodDraws[FirstFree(foodDraws, snake, obstacles)]
      ensures fps == old(fps) && currentDifficulty == old(currentDifficulty)
      ensures timer == Every(fps) && timerStarts == old(timerStarts) + 1
    {
      snake := INITIAL_SNAKE;
      dir := RIGHT;
      PlaceObstacles(obstacleDraws);
      PlaceFood(foodDraws);
      score := 0;
      running := true;
      ApplyInterval();
      assert forall i :: 0 <= i < |obstacles| ==> obstacles[i] in obstacles;
    }

    /** Cancels the running interval, if any, and starts one at the current rate. */
    method ApplyInterval()
      modifies this`timer, this`timerStarts
      ensures timer == Every(fps) && timerStarts == old(timerStarts) + 1
    {
      timer := Every(fps);
      timerStarts := timerStarts + 1;
    }

    /**
     * Selects a level of the table and, while a game runs, restarts the
     * interval at its rate; an unknown name changes nothing.
     */
    method SetDifficulty(level: string)
      requires Settings()
      modifies this`currentDifficulty, this`fps, this`timer, this`timerStarts
      ensures Settings()
      ensures Difficulty.Fps(level).None? ==>
                && currentDifficulty == old(currentDifficulty) && fps == old(fps)
                && timer == old(timer) && timerStarts == old(timerStarts)
      ensures Difficulty.Fps(level).Some? ==>
                && currentDifficulty == level && fps == Difficulty.Fps(level).value
                && timerStarts == old(timerStarts) + (if running then 1 else 0)
    {
      var rate := Difficulty.Fps(level);
      if rate.None? { return; }
      currentDifficulty := level;
      fps := rate.value;
      if running {
        ApplyInterval();
      }
    }

    /** The digit shortcuts "1", "2" and "3" (any other key does nothing). */
    method ShortcutKey(key: string)
      requires Settings()
      modifies this`currentDifficulty, this`fps, this`timer, this`timerStarts
      ensures Settings()
      ensures Difficulty.ShortcutLevel(key).None? ==>
                currentDifficulty == old(currentDifficulty) && fps == old(fps) && timerStarts == old(timerStarts)
      ensures Difficulty.ShortcutLevel(key).Some? ==>
                && currentDifficulty == Difficulty.ShortcutLevel(key).value
                && Some(fps) == Difficulty.Fps(currentDifficulty)
                && timerStarts == old(timerStarts) + (if running then 1 else 0)
    {
      var level := Difficulty.ShortcutLevel(key);
      if level.Some? {
        SetDifficulty(level.value);
      }
    }

    /**
     * The obstacle loop: from none, push each draw that is not on the snake
     * and not already an obstacle, until NUM_OBSTACLES are placed.
     */
    method PlaceObstacles(draws: seq<Cell>)
      requires Enough(CellSet(snake), draws, [])
      modifies this`obstacles
      ensures obstacles == Sample(CellSet(snake), draws, [])
    {
      obstacles := [];
      var forbidden := CellSet(snake);
      var i := 0;
      while |obstacles| < NUM_OBSTACLES
        invariant 0 <= i <= |draws|
        invariant Enough(forbidden, draws[i..], obstacles)
        invariant Sample(forbidden, draws[i..], obstacles) == Sample(forbidden, draws, [])
        decreases |draws| - i
      {
        var o := draws[i];
        ghost var rest := draws[i..];
        assert rest[1..] == draws[i + 1..];
        i := i + 1;
        if o in forbidden || o in obstacles {
          assert Usable(forbidden, draws[i..], obstacles) == Usable(forbidden, rest, obstacles);
        } else {
          assert Usable(forbidden, draws[i..], obstacles + [o]) == Usable(forbidden, rest, obstacles) - {o};
        }
        if o in forbidden { continue; }
        if o in obstacles { continue; }
        obstacles := obstacles + [o];
      }
    }

    /** The food loop: the first draw that is neither on the snake nor on an obstacle becomes the food. */
    method PlaceFood(draws: seq<Cell>)
      requires HasFree(draws, snake, obstacles)
      modifies this`food
      ensures food == draws[FirstFree(draws, snake, obstacles)]
    {
      ghost var k := FirstFree(draws, snake, obstacles);
      var i := 0;
      while true
        invariant 0 <= i <= k
        decreases k - i
      {
        var f := draws[i];
        if f !in snake && f !in obstacles {
          food := f;
          break;
        }
        i := i + 1;
      }
    }

    /** The game-state part of gameOver: the game stops and its interval is cleared. */
    method GameOver()
      modifies this`running, this`timer
      ensures !running && timer == Stopped
    {
      running := false;
      timer := Stopped;
    }

    /**
     * One step of the game. A stopped game does not change. Otherwise the
     * head moves one cell, wrapping at the edges; landing on an obstacle or
     * on any cell of the current body (its tail included) ends the game with
     * nothing moved; landing on the food grows the snake by one cell, adds 1
     * to the score and places new food; any other move drops the tail.
     */
    method Tick(foodDraws: seq<Cell>)
      requires Valid()
      requires AllInBounds(foodDraws)
      requires running && NextHead(snake[0], dir) == food ==> HasFree(foodDraws, [food] + snake, obstacles)
      modifies this
      ensures Valid()
      ensures obstacles == old(obstacles) && dir == old(dir)
      ensures fps == old(fps) && currentDifficulty == old(currentDifficulty) && timerStarts == old(timerStarts)
      ensures !old(running) ==> unchanged(this)
      ensures old(running) && Collides(old(NextHead(snake[0], dir)), old(snake), obstacles) ==>
                && !running && timer == Stopped
                && snake == old(snake) && food == old(food) && score == old(score)
      ensures old(running) && !Collides(old(NextHead(snake[0], dir)), old(snake), obstacles) ==>
                var head := old(NextHead(snake[0], dir));
                var eats := head == old(food);
                && running && timer == old(timer)
                && snake == Moved(old(snake), head, eats)
                && score == old(score) + (if eats then 1 else 0)
                && food == (if eats then foodDraws[FirstFree(foodDraws, snake, obstacles)] else old(food))
    {
      if !running { return; }
      var head := NextHead(snake[0], dir);
      if head in obstacles { GameOver(); return; }
      if head in snake { GameOver(); return; }
      MovedKeepsBody(snake, head, head == food);
      var before := snake;
      snake := [head] + snake;
      if head == food {
        score := score + 1;
        PlaceFood(foodDraws);
        assert foodDraws[FirstFree(foodDraws, snake, obstacles)] in foodDraws;
      } else {
        snake := snake[..|snake| - 1];
        assert snake == Moved(before, head, false);
      }
    }

    /** The direction keydown handler. */
    method Key(key: string)
      requires Valid()
      modifies this`dir
      ensures Valid()
      ensures dir == Input.Steer(old(dir), |snake|, key)
    {
      var nd := Input.KeyDirection(key);
      if nd.None? { return; }
      if |snake| > 1 && nd.value.x == -dir.x && nd.value.y == -dir.y { return; }
      dir := nd.value;
      Input.SteerNeverReverses(old(dir), |snake|, key);
    }
  }
}
