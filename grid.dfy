/**
 * The playing field of snake.js: a COLS x ROWS lattice of integer cells
 * whose edges wrap around (a torus), the four unit directions, and the
 * JavaScript remainder operator the wrap-around is written with.
 */
module Grid {

  const COLS: int := 20
  const ROWS: int := 20

  /** A cell {x, y}; the source uses the same shape for direction vectors. */
  datatype Cell = Cell(x: int, y: int)

  const UP: Cell := Cell(0, -1)
  const DOWN: Cell := Cell(0, 1)
  const LEFT: Cell := Cell(-1, 0)
  const RIGHT: Cell := Cell(1, 0)

  predicate InBounds(c: Cell)
  {
    0 <= c.x < COLS && 0 <= c.y < ROWS
  }

  predicate AllInBounds(s: seq<Cell>)
  {
    forall i :: 0 <= i < |s| ==> InBounds(s[i])
  }

  predicate IsUnit(d: Cell)
  {
    d == UP || d == DOWN || d == LEFT || d == RIGHT
  }

  /** The opposite direction. */
  function Neg(d: Cell): (r: Cell)
    ensures IsUnit(d) ==> IsUnit(r) && r != d
  {
    Cell(-d.x, -d.y)
  }

  /** No cell occurs twice. */
  predicate Distinct(s: seq<Cell>)
  {
    forall i, j :: 0 <= i < j < |s| ==> s[i] != s[j]
  }

  function CellSet(s: seq<Cell>): (r: set<Cell>)
    ensures forall c :: c in r <==> c in s
  {
    set c | c in s
  }

  /**
   * JavaScript's `%` on integers: the remainder of a division truncated
   * toward zero, so it carries the sign of the dividend. On a non-negative
   * dividend it agrees with Dafny's Euclidean `%`.
   */
  function JsRem(a: int, b: int): (r: int)
    requires b > 0
    ensures 0 <= a ==> r == a % b
    ensures a < 0 ==> -b < r <= 0
  {
    if a >= 0 then a % b else -((-a) % b)
  }

  /**
   * The candidate head: one step in direction `dir`, each axis wrapped with
   * `(v + size) % size`, which on a grid cell and a unit step is the
   * mathematical residue modulo the grid size.
   */
  function NextHead(head: Cell, dir: Cell): (r: Cell)
    ensures InBounds(head) && IsUnit(dir) ==> InBounds(r)
    ensures InBounds(head) && IsUnit(dir) ==>
              r == Cell((head.x + dir.x) % COLS, (head.y + dir.y) % ROWS)
  {
    Cell(JsRem(head.x + dir.x + COLS, COLS), JsRem(head.y + dir.y + ROWS, ROWS))
  }

  /**
   * Inside the grid a step is a plain move; stepping off an edge re-enters
   * at the opposite edge on the same row or column.
   */
  lemma NextHeadIsNeighbour(head: Cell, dir: Cell)
    requires InBounds(head) && IsUnit(dir)
    ensures InBounds(Cell(head.x + dir.x, head.y + dir.y)) ==>
              NextHead(head, dir) == Cell(head.x + dir.x, head.y + dir.y)
    ensures head.x == COLS - 1 && dir == RIGHT ==> NextHead(head, dir) == Cell(0, head.y)
    ensures head.x == 0 && dir == LEFT ==> NextHead(head, dir) == Cell(COLS - 1, head.y)
    ensures head.y == ROWS - 1 && dir == DOWN ==> NextHead(head, dir) == Cell(head.x, 0)
    ensures head.y == 0 && dir == UP ==> NextHead(head, dir) == Cell(head.x, ROWS - 1)
  {
  }

  /** A sequence without repetitions has as many distinct cells as elements. */
  lemma {:induction false} DistinctCardinality(s: seq<Cell>)
    requires Distinct(s)
    ensures |CellSet(s)| == |s|
  {
    if s != [] {
      DistinctCardinality(s[1..]);
      assert CellSet(s) == CellSet(s[1..]) + {s[0]};
      assert s[0] !in CellSet(s[1..]);
    }
  }

  /** Any sequence has at most as many distinct cells as elements. */
  lemma {:induction false} CardinalityAtMostLength(s: seq<Cell>)
    ensures |CellSet(s)| <= |s|
  {
    if s != [] {
      CardinalityAtMostLength(s[1..]);
      assert CellSet(s) == CellSet(s[1..]) + {s[0]};
    }
  }
}
