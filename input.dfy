/**
 * The direction keydown handler of snake.js: eight keys (four arrows and
 * w/s/a/d) name the four unit directions, and a request for the exact
 * reverse of the current direction is refused while the snake is longer
 * than one cell.
 */
module Input {

  import opened Wrappers
  import opened Grid

  const DIRECTION_KEYS: seq<string> :=
    ["ArrowUp", "ArrowDown", "ArrowLeft", "ArrowRight", "w", "s", "a", "d"]

  /** The handler's key table; None for a key the table does not hold. */
  function KeyDirection(key: string): (r: Option<Cell>)
    ensures r.Some? <==> key in DIRECTION_KEYS
    ensures r.Some? ==> IsUnit(r.value)
  {
    if key == "ArrowUp" || key == "w" then Some(UP)
    else if key == "ArrowDown" || key == "s" then Some(DOWN)
    else if key == "ArrowLeft" || key == "a" then Some(LEFT)
    else if key == "ArrowRight" || key == "d" then Some(RIGHT)
    else None
  }

  /** Each direction is named by one arrow key and one letter key. */
  lemma KeysCoverDirections(d: Cell)
    requires IsUnit(d)
    ensures exists k :: k in DIRECTION_KEYS[..4] && KeyDirection(k) == Some(d)
    ensures exists k :: k in DIRECTION_KEYS[4..] && KeyDirection(k) == Some(d)
  {
    var i := if d == UP then 0 else if d == DOWN then 1 else if d == LEFT then 2 else 3;
    assert KeyDirection(DIRECTION_KEYS[i]) == Some(d);
    assert KeyDirection(DIRECTION_KEYS[i + 4]) == Some(d);
  }

  /** The direction after the handler has seen `key`, for a snake of `length` cells. */
  function Steer(dir: Cell, length: nat, key: string): (r: Cell)
    ensures KeyDirection(key).None? ==> r == dir
    ensures KeyDirection(key).Some? && length > 1 && KeyDirection(key).value == Neg(dir) ==> r == dir
    ensures KeyDirection(key).Some? && !(length > 1 && KeyDirection(key).value == Neg(dir)) ==>
              r == KeyDirection(key).value
  {
    match KeyDirection(key)
    case None => dir
    case Some(nd) => if length > 1 && nd.x == -dir.x && nd.y == -dir.y then dir else nd
  }

  /**
   * What the handler guarantees: the direction stays a unit vector, and a
   * snake longer than one cell is never turned straight back by one key.
   * A one-cell snake may reverse.
   */
  lemma SteerNeverReverses(dir: Cell, length: nat, key: string)
    requires IsUnit(dir)
    ensures IsUnit(Steer(dir, length, key))
    ensures length > 1 ==> Steer(dir, length, key) != Neg(dir)
    ensures length <= 1 && KeyDirection(key) == Some(Neg(dir)) ==> Steer(dir, length, key) == Neg(dir)
  {
  }

  /**
   * The refusal compares with the current direction, not with the one the
   * last tick moved in: two keys between ticks ("w" then "a" while moving
   * right) turn a long snake around.
   */
  lemma TwoKeysReverse(length: nat)
    requires length > 1
    ensures Steer(Steer(RIGHT, length, "w"), length, "a") == Neg(RIGHT)
  {
    assert KeyDirection("w") == Some(UP);
    assert Steer(RIGHT, length, "w") == UP;
    assert KeyDirection("a") == Some(LEFT);
  }
}
