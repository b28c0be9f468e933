/**
 * The two rejection-sampling loops of snake.js, stated as functions of the
 * random draws they consume. `Math.random` is replaced by a supplied
 * sequence of cells (each draw is a cell of the grid, as
 * `Math.floor(Math.random() * COLS)` gives); the source loops until it
 * accepts, so the model asks that the supplied draws reach acceptance.
 */
module Placement {

  import opened Grid

  const NUM_OBSTACLES: nat := 10

  /** A cell neither on the snake nor on an obstacle. */
  predicate Free(c: Cell, body: seq<Cell>, obstacles: seq<Cell>)
  {
    c !in body && c !in obstacles
  }

  /** The food test of the source, two `.some` scans over the x and y fields, is Free. */
  lemma FreeIsFieldScan(c: Cell, body: seq<Cell>, obstacles: seq<Cell>)
    ensures Free(c, body, obstacles) <==>
              && (forall i :: 0 <= i < |body| ==> body[i].x != c.x || body[i].y != c.y)
              && (forall i :: 0 <= i < |obstacles| ==> obstacles[i].x != c.x || obstacles[i].y != c.y)
  {
    if !Free(c, body, obstacles) {
      if c in body {
        var i :| 0 <= i < |body| && body[i] == c;
      } else {
        var i :| 0 <= i < |obstacles| && obstacles[i] == c;
      }
    }
  }

  /** Some draw is free: the food loop stops on these draws. */
  predicate HasFree(draws: seq<Cell>, body: seq<Cell>, obstacles: seq<Cell>)
  {
    exists i :: 0 <= i < |draws| && Free(draws[i], body, obstacles)
  }

  /**
   * The index of the draw the food loop accepts: the first free one. Every
   * earlier draw was on the snake or on an obstacle and was rejected.
   */
  function FirstFree(draws: seq<Cell>, body: seq<Cell>, obstacles: seq<Cell>): (k: nat)
    requires HasFree(draws, body, obstacles)
    ensures k < |draws| && Free(draws[k], body, obstacles)
    ensures forall j :: 0 <= j < k ==> !Free(draws[j], body, obstacles)
    decreases |draws|
  {
    if Free(draws[0], body, obstacles) then 0
    else
      assert HasFree(draws[1..], body, obstacles) by {
        var i :| 0 <= i < |draws| && Free(draws[i], body, obstacles);
        assert draws[1..][i - 1] == draws[i];
      }
      1 + FirstFree(draws[1..], body, obstacles)
  }

  /** The draws the obstacle loop would still accept after `placed`. */
  function Usable(forbidden: set<Cell>, draws: seq<Cell>, placed: seq<Cell>): set<Cell>
  {
    set c | c in draws && c !in forbidden && c !in placed
  }

  /**
   * The obstacle loop can go on from `placed` and reach its count: what is
   * placed so far is distinct and off the forbidden cells, and the draws
   * still hold enough new usable cells.
   */
  predicate Enough(forbidden: set<Cell>, draws: seq<Cell>, placed: seq<Cell>)
  {
    && |placed| <= NUM_OBSTACLES
    && Distinct(placed)
    && (forall i :: 0 <= i < |placed| ==> placed[i] !in forbidden)
    && |placed| + |Usable(forbidden, draws, placed)| >= NUM_OBSTACLES
  }

  /**
   * The obstacles the loop of placeObstacles ends with, starting from
   * `placed`: a draw is pushed unless it is forbidden or already placed,
   * until NUM_OBSTACLES are placed.
   */
  function Sample(forbidden: set<Cell>, draws: seq<Cell>, placed: seq<Cell>): (r: seq<Cell>)
    requires Enough(forbidden, draws, placed)
    ensures |r| == NUM_OBSTACLES
    ensures Distinct(r)
    ensures placed <= r
    ensures forall c :: c in r ==> c !in forbidden
    ensures forall c :: c in r ==> c in placed || c in draws
    decreases |draws|
  {
    if |placed| < NUM_OBSTACLES then
      var o := draws[0];
      if o in forbidden || o in placed then
        assert Usable(forbidden, draws[1..], placed) == Usable(forbidden, draws, placed);
        Sample(forbidden, draws[1..], placed)
      else
        assert Usable(forbidden, draws[1..], placed + [o]) == Usable(forbidden, draws, placed) - {o};
        Sample(forbidden, draws[1..], placed + [o])
    else
      placed
  }

  /** Draws are taken in order: a usable first draw becomes the next obstacle. */
  lemma SampleTakesFirstUsable(forbidden: set<Cell>, draws: seq<Cell>, placed: seq<Cell>)
    requires Enough(forbidden, draws, placed) && |placed| < NUM_OBSTACLES
    requires |draws| > 0 && draws[0] !in forbidden && draws[0] !in placed
    ensures Sample(forbidden, draws, placed)[|placed|] == draws[0]
  {
    assert Usable(forbidden, draws[1..], placed + [draws[0]]) == Usable(forbidden, draws, placed) - {draws[0]};
    assert Sample(forbidden, draws, placed) == Sample(forbidden, draws[1..], placed + [draws[0]]);
  }

  /** A draw on the snake, on a forbidden cell or on a placed obstacle is skipped. */
  lemma SampleSkipsUnusable(forbidden: set<Cell>, draws: seq<Cell>, placed: seq<Cell>)
    requires Enough(forbidden, draws, placed) && |placed| < NUM_OBSTACLES
    requires |draws| > 0 && (draws[0] in forbidden || draws[0] in placed)
    ensures Enough(forbidden, draws[1..], placed)
    ensures Sample(forbidden, draws, placed) == Sample(forbidden, draws[1..], placed)
  {
    assert Usable(forbidden, draws[1..], placed) == Usable(forbidden, draws, placed);
  }

  /** Every cell of the grid, row by row: the draws of a source that eventually yields each cell. */
  function AllCells(): (r: seq<Cell>)
    ensures |r| == COLS * ROWS && Distinct(r) && AllInBounds(r)
    ensures forall c :: InBounds(c) ==> c in r
  {
    var r := seq(COLS * ROWS, i requires 0 <= i < COLS * ROWS => Cell(i % COLS, i / COLS));
    forall i | 0 <= i < |r| ensures InBounds(r[i]) && i == r[i].x + COLS * r[i].y {}
    forall c | InBounds(c) ensures c in r {
      assert r[c.x + COLS * c.y] == c;
    }
    r
  }

  /**
   * The food loop can stop whenever the board is not full: some cell is
   * free of a snake and obstacles that together have fewer cells than the grid.
   */
  lemma NotFullHasFree(body: seq<Cell>, obstacles: seq<Cell>)
    requires |body| + |obstacles| < COLS * ROWS
    ensures HasFree(AllCells(), body, obstacles)
  {
    var all := AllCells();
    if !HasFree(all, body, obstacles) {
      assert CellSet(all) <= CellSet(body) + CellSet(obstacles) by {
        forall c | c in CellSet(all) ensures c in CellSet(body) + CellSet(obstacles) {
          var i :| 0 <= i < |all| && all[i] == c;
          assert !Free(all[i], body, obstacles);
        }
      }
      DistinctCardinality(all);
      CardinalityAtMostLength(body);
      CardinalityAtMostLength(obstacles);
      SubsetCardinality(CellSet(all), CellSet(body) + CellSet(obstacles));
      assert false;
    }
  }

  lemma SubsetCardinality(a: set<Cell>, b: set<Cell>)
    requires a <= b
    ensures |a| <= |b|
  {
    assert b == a + (b - a);
  }

  lemma DifferenceCardinality(a: set<Cell>, b: set<Cell>)
    ensures |a - b| >= |a| - |b|
  {
    assert a == (a - b) + (a * b);
    assert (a - b) * (a * b) == {};
    SubsetCardinality(a * b, b);
  }

  /** The obstacle loop can reach its count whenever the snake leaves room for all obstacles. */
  lemma ObstaclesCanBePlaced(body: seq<Cell>)
    requires |body| + NUM_OBSTACLES <= COLS * ROWS
    ensures Enough(CellSet(body), AllCells(), [])
  {
    var all := AllCells();
    assert Usable(CellSet(body), all, []) == CellSet(all) - CellSet(body);
    DistinctCardinality(all);
    CardinalityAtMostLength(body);
    DifferenceCardinality(CellSet(all), CellSet(body));
  }
}
