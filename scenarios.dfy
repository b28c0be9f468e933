/** Concrete sessions, checked against the contracts of Game alone. */
module Scenarios {

  import opened Grid
  import opened Placement
  import opened SnakeGame

  /** Ten distinct cells on the top row, none on the initial snake. */
  const TOP_ROW: seq<Cell> := seq(10, i requires 0 <= i < 10 => Cell(i, 0))

  /** Obstacle draws whose first cell lies just ahead of the initial head. */
  const AHEAD: seq<Cell> := [Cell(10, 9)] + TOP_ROW[..9]

  /** The top-row draws place ten obstacles, all on the top row. */
  lemma TopRowObstacles()
    ensures Enough(CellSet(INITIAL_SNAKE), TOP_ROW, [])
    ensures forall c :: c in Sample(CellSet(INITIAL_SNAKE), TOP_ROW, []) ==> c.y == 0
  {
    assert Distinct(TOP_ROW);
    DistinctCardinality(TOP_ROW);
    assert Usable(CellSet(INITIAL_SNAKE), TOP_ROW, []) == CellSet(TOP_ROW);
  }

  /** The AHEAD draws place their first cell first; every other obstacle is on the top row. */
  lemma AheadObstacles()
    ensures Enough(CellSet(INITIAL_SNAKE), AHEAD, [])
    ensures Sample(CellSet(INITIAL_SNAKE), AHEAD, [])[0] == Cell(10, 9)
    ensures forall c :: c in Sample(CellSet(INITIAL_SNAKE), AHEAD, []) ==> c == Cell(10, 9) || c.y == 0
  {
    assert Distinct(AHEAD);
    DistinctCardinality(AHEAD);
    assert Usable(CellSet(INITIAL_SNAKE), AHEAD, []) == CellSet(AHEAD);
    SampleTakesFirstUsable(CellSet(INITIAL_SNAKE), AHEAD, []);
  }

  /**
   * A fresh session with no food ahead: one tick moves the snake one cell
   * to the right, keeps its length and leaves the score at 0.
   */
  method FirstTick() returns (body: seq<Cell>, score: nat, running: bool)
    ensures body == [Cell(10, 9), Cell(9, 9), Cell(8, 9)]
    ensures score == 0 && running
  {
    TopRowObstacles();
    var foodDraws := [Cell(15, 15)];
    assert Free(foodDraws[0], INITIAL_SNAKE, Sample(CellSet(INITIAL_SNAKE), TOP_ROW, []));
    var g := new Game(TOP_ROW, foodDraws);
    assert g.food == Cell(15, 15);
    assert Cell(10, 9) !in g.obstacles;
    g.Tick([]);
    body, score, running := g.snake, g.score, g.running;
  }

  /**
   * A fresh session whose food lies straight ahead: one tick grows the
   * snake by one cell without dropping the tail, scores 1 and places the
   * next food at the first draw off the snake.
   */
  method EatingTick() returns (body: seq<Cell>, score: nat, food: Cell)
    ensures body == [Cell(10, 9), Cell(9, 9), Cell(8, 9), Cell(7, 9)]
    ensures score == 1 && food == Cell(15, 15)
  {
    TopRowObstacles();
    var foodDraws := [Cell(10, 9)];
    assert Free(foodDraws[0], INITIAL_SNAKE, Sample(CellSet(INITIAL_SNAKE), TOP_ROW, []));
    var g := new Game(TOP_ROW, foodDraws);
    assert g.food == Cell(10, 9);
    var nextDraws := [Cell(9, 9), Cell(15, 15)];
    assert Free(nextDraws[1], [g.food] + g.snake, g.obstacles);
    g.Tick(nextDraws);
    assert g.snake == [Cell(10, 9)] + INITIAL_SNAKE;
    assert !Free(nextDraws[0], g.snake, g.obstacles);
    body, score, food := g.snake, g.score, g.food;
  }

  /**
   * A fresh session with an obstacle straight ahead: the tick ends the game
   * with nothing moved, and a later tick changes nothing.
   */
  method ObstacleTick() returns (body: seq<Cell>, score: nat, running: bool)
    ensures body == INITIAL_SNAKE && score == 0 && !running
  {
    AheadObstacles();
    var foodDraws := [Cell(15, 15)];
    assert Free(foodDraws[0], INITIAL_SNAKE, Sample(CellSet(INITIAL_SNAKE), AHEAD, []));
    var g := new Game(AHEAD, foodDraws);
    assert g.obstacles[0] == Cell(10, 9);
    assert NextHead(g.snake[0], g.dir) == Cell(10, 9);
    assert Collides(NextHead(g.snake[0], g.dir), g.snake, g.obstacles);
    g.Tick([]);
    assert !g.running && g.snake == INITIAL_SNAKE && g.score == 0;
    g.Tick([]);
    body, score, running := g.snake, g.score, g.running;
  }

  /** Head on the last column moving right: the next head is on column 0 of the same row. */
  lemma WrapAtRightEdge(y: int)
    requires 0 <= y < ROWS
    ensures NextHead(Cell(COLS - 1, y), RIGHT) == Cell(0, y)
  {
  }

  /**
   * The self-collision test looks at the whole pre-move body: on a
   * four-cell snake curled into a square, moving onto the tail cell ends the
   * game although that cell would be vacated by the same move.
   */
  lemma TailCellCollides()
    ensures Collides(NextHead(Cell(1, 0), LEFT), [Cell(1, 0), Cell(1, 1), Cell(0, 1), Cell(0, 0)], [])
    ensures Distinct(Moved([Cell(1, 0), Cell(1, 1), Cell(0, 1), Cell(0, 0)], Cell(0, 0), false))
  {
    assert NextHead(Cell(1, 0), LEFT) == Cell(0, 0);
  }
}
