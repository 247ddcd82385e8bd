// The three enumerations of the game. CellValue keeps the source's numeric
// encoding because the board generator adds a neighbour count to EMPTY and the
// reveal engine tests the range ONE..EIGHT arithmetically.
module Enums {

  /** A cell's content: 0 (EMPTY) .. 8 adjacent mines, or one of the three mine tags. */
  type CellValue = v: int | 0 <= v <= 11

  const EMPTY: CellValue := 0
  const ONE: CellValue := 1
  const TWO: CellValue := 2
  const THREE: CellValue := 3
  const FOUR: CellValue := 4
  const FIVE: CellValue := 5
  const SIX: CellValue := 6
  const SEVEN: CellValue := 7
  const EIGHT: CellValue := 8
  const BOMB: CellValue := 9
  const BOMB_EXPLODED: CellValue := 10
  const BOMB_MISTAKEN: CellValue := 11

  /** The test the reveal engine uses for a numbered border cell. */
  predicate IsNumber(v: CellValue) {
    ONE <= v <= EIGHT
  }

  /** The value the generator stores for a safe cell with k adjacent mines. */
  function CountValue(k: int): (v: CellValue)
    requires 0 <= k <= 8
    ensures v - EMPTY == k
    ensures v == EMPTY <==> k == 0
    ensures IsNumber(v) <==> k != 0
    ensures v != BOMB && v != BOMB_EXPLODED && v != BOMB_MISTAKEN
  {
    EMPTY + k
  }

  /** The three mine tags lie outside the range ONE..EIGHT and differ from EMPTY. */
  lemma MineTagsAreNotCounts(v: CellValue)
    requires v == BOMB || v == BOMB_EXPLODED || v == BOMB_MISTAKEN
    ensures !IsNumber(v) && v != EMPTY
  {
  }

  /** Visibility of a cell: NO is the revealed state, the other three are hidden. */
  datatype CellMask = NO | LOCKED | LOCKED_QUESTION | FLAG

  datatype GameState = NOT_STARTED | STARTED | GAME_OVER | WON

  /** Both click handlers return at once unless the game is NOT_STARTED or STARTED. */
  predicate AcceptsClicks(s: GameState) {
    s == NOT_STARTED || s == STARTED
  }

  /** Exactly the two terminal states ignore clicks. */
  lemma TerminalStatesIgnoreClicks(s: GameState)
    ensures !AcceptsClicks(s) <==> s == GAME_OVER || s == WON
  {
  }
}
