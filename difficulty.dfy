/**
 * The difficulty table of snake.js (level name to frames per second) and
 * the digit shortcuts that select a level.
 */
module Difficulty {

  import opened Wrappers

  const NOVICE: string := "novice"
  const INTERMEDIATE: string := "intermediate"
  const EXPERT: string := "expert"
  const LEVELS: seq<string> := [NOVICE, INTERMEDIATE, EXPERT]

  /** The frames per second of a level; None for a name the table lacks. */
  function Fps(level: string): (r: Option<nat>)
    ensures r.Some? <==> level in LEVELS
    ensures r.Some? ==> r.value > 0
  {
    if level == NOVICE then Some(6)
    else if level == INTERMEDIATE then Some(10)
    else if level == EXPERT then Some(14)
    else None
  }

  /** A harder level ticks faster. */
  lemma HarderIsFaster()
    ensures Fps(NOVICE).value < Fps(INTERMEDIATE).value < Fps(EXPERT).value
  {
  }

  /** The keyboard shortcuts: "1", "2" and "3" select the three levels in order. */
  function ShortcutLevel(key: string): (r: Option<string>)
    ensures r.Some? <==> key in ["1", "2", "3"]
    ensures r.Some? ==> Fps(r.value).Some?
  {
    if key == "1" then Some(NOVICE)
    else if key == "2" then Some(INTERMEDIATE)
    else if key == "3" then Some(EXPERT)
    else None
  }
}
