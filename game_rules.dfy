// The playing field as a state machine over snapshots: the left and right
// click handlers, the effect that runs on every new field, the smiley reset
// and the timer tick.
module GameRules {
  import opened Enums
  import opened Types
  import opened Rules
  import opened Random

  const GRID_WIDTH: nat := 16
  const GRID_HEIGHT: nat := 16
  const BOMB_COUNT: nat := 40

  /** The playing field's React state (the scared smiley is left out). */
  datatype State = State(gameState: GameState, board: Board, isFirstClick: bool,
                         bombCounter: int, time: int)

  /** The effect on `field`: the counter shows the mines left unmarked, and the
      game is won once markedAtAll == markedCorrectly == BOMB_COUNT. */
  function AfterFieldChange(s: State): (r: State)
    ensures r.board == s.board && r.isFirstClick == s.isFirstClick && r.time == s.time
    ensures r.bombCounter + |Marked(s.board)| == BOMB_COUNT
    ensures r.gameState == WON <==> s.gameState == WON || WinCheck(s.board, BOMB_COUNT)
    ensures r.gameState != WON ==> r.gameState == s.gameState
  {
    s.(bombCounter := BOMB_COUNT - |Marked(s.board)|,
       gameState := if WinCheck(s.board, BOMB_COUNT) then WON else s.gameState)
  }

  /** The first-click loop `while (field[y][x] is a mine) field = generateField()`,
      drawing the successive boards from `samples`; it stops early when the
      samples run out. */
  function Regenerate(b: Board, c: Coords, samples: seq<seq<int>>): (r: Board)
    requires IsRect(b, GRID_WIDTH, GRID_HEIGHT) && InBounds(c, GRID_WIDTH, GRID_HEIGHT)
    ensures IsRect(r, GRID_WIDTH, GRID_HEIGHT)
    decreases |samples|
  {
    if Get(b, c).value != BOMB || samples == [] then b
    else
      GeneratedBoard(GRID_WIDTH, GRID_HEIGHT, samples[0]);
      Regenerate(Generated(GRID_WIDTH, GRID_HEIGHT, samples[0]), c, samples[1..])
  }

  /** The board the first left click plays on: regenerated until the clicked
      cell is safe, with the flags of the old board put back. */
  function FirstClickBoard(b: Board, c: Coords, samples: seq<seq<int>>): Board
    requires IsRect(b, GRID_WIDTH, GRID_HEIGHT) && InBounds(c, GRID_WIDTH, GRID_HEIGHT)
  {
    ApplyFlags(Regenerate(b, c, samples), FlagCells(b))
  }

  /** handleCellLeftClick(c) followed by the field effect. */
  ghost function LeftClick(s: State, c: Coords, samples: seq<seq<int>>): (r: State)
    requires IsRect(s.board, GRID_WIDTH, GRID_HEIGHT) && InBounds(c, GRID_WIDTH, GRID_HEIGHT)
    ensures IsRect(r.board, GRID_WIDTH, GRID_HEIGHT)
    ensures !AcceptsClicks(s.gameState) ==> r == s
    ensures AcceptsClicks(s.gameState) ==> !r.isFirstClick && r.time == s.time
  {
    if !AcceptsClicks(s.gameState) then s
    else
      var gs := if s.isFirstClick then STARTED else s.gameState;
      var b0 := if s.isFirstClick then FirstClickBoard(s.board, c, samples) else s.board;
      var b1 := Expand(b0, c);
      ExpandRevealsNoMine(b0, c);
      var lost := Get(b1, c).value == BOMB;
      var b2 := if lost then LossReveal(b1, c) else b1;
      AfterFieldChange(State(if lost then GAME_OVER else gs, b2, false, s.bombCounter, s.time))
  }

  /** handleCellRightClick(c) followed by the field effect. */
  ghost function RightClick(s: State, c: Coords): (r: State)
    requires IsRect(s.board, GRID_WIDTH, GRID_HEIGHT) && InBounds(c, GRID_WIDTH, GRID_HEIGHT)
    ensures IsRect(r.board, GRID_WIDTH, GRID_HEIGHT)
    ensures !AcceptsClicks(s.gameState) ==> r == s
    ensures AcceptsClicks(s.gameState) ==>
              && r.board == Put(s.board, c, Cell(Get(s.board, c).value, CycleMask(Get(s.board, c).mask)))
              && r.isFirstClick == s.isFirstClick && r.time == s.time
  {
    if !AcceptsClicks(s.gameState) then s
    else
      var u := Get(s.board, c);
      AfterFieldChange(State(if s.isFirstClick then STARTED else s.gameState,
                             Put(s.board, c, Cell(u.value, CycleMask(u.mask))),
                             s.isFirstClick, s.bombCounter, s.time))
  }

  /** The state on mount and after the smiley is clicked: a new field, and the
      field effect run on it. */
  function Fresh(sample: seq<int>): (r: State)
    ensures IsRect(r.board, GRID_WIDTH, GRID_HEIGHT)
    ensures r.isFirstClick && r.time == 0
  {
    GeneratedBoard(GRID_WIDTH, GRID_HEIGHT, sample);
    AfterFieldChange(State(NOT_STARTED, Generated(GRID_WIDTH, GRID_HEIGHT, sample), true, BOMB_COUNT, 0))
  }

  /** One second of the interval that runs while the game is STARTED. */
  function Tick(s: State): (r: State)
    ensures r.time == if s.gameState == STARTED then s.time + 1 else s.time
    ensures r.(time := s.time) == s
  {
    if s.gameState == STARTED then s.(time := s.time + 1) else s
  }

  // ------------------------------------------------------------ first click

  /** Every sample the playing field draws is what randomNumbers(0, 255, 40)
      returns. */
  predicate ValidSamples(samples: seq<seq<int>>) {
    forall i :: 0 <= i < |samples| ==> ValidSample(samples[i], GRID_WIDTH, GRID_HEIGHT, BOMB_COUNT)
  }

  /** `randomNumbers(0, GRID_WIDTH * GRID_HEIGHT - 1, BOMB_COUNT)` as
      generateField calls it: what it returns is a sample the playing field
      accepts, and it fails only when the draws run out first. */
  method DrawBombIndexes(randoms: seq<real>) returns (r: Option<seq<int>>)
    requires forall i :: 0 <= i < |randoms| ==> 0.0 <= randoms[i] < 1.0
    ensures r.Some? ==> ValidSample(r.value, GRID_WIDTH, GRID_HEIGHT, BOMB_COUNT)
    ensures r.None? ==> |Collected(Draws(randoms, 0, GRID_WIDTH * GRID_HEIGHT - 1))| < BOMB_COUNT
  {
    var used;
    r, used := RandomNumbers(0, GRID_WIDTH * GRID_HEIGHT - 1, BOMB_COUNT, randoms);
  }

  /** The regeneration loop ends on a safe cell exactly when the board it
      starts from is safe there or some sample leaves the cell free. */
  lemma {:induction false} RegenerateSafe(b: Board, c: Coords, samples: seq<seq<int>>)
    requires IsRect(b, GRID_WIDTH, GRID_HEIGHT) && InBounds(c, GRID_WIDTH, GRID_HEIGHT)
    ensures Get(Regenerate(b, c, samples), c).value != BOMB <==>
              Get(b, c).value != BOMB ||
              exists i :: 0 <= i < |samples| && c !in BombSet(samples[i], GRID_WIDTH, GRID_HEIGHT)
    decreases |samples|
  {
    if Get(b, c).value == BOMB && samples != [] {
      var g := Generated(GRID_WIDTH, GRID_HEIGHT, samples[0]);
      GeneratedBoard(GRID_WIDTH, GRID_HEIGHT, samples[0]);
      RegenerateSafe(g, c, samples[1..]);
      assert Get(g, c).value == BOMB <==> c in BombSet(samples[0], GRID_WIDTH, GRID_HEIGHT);
      if exists i :: 0 <= i < |samples| && c !in BombSet(samples[i], GRID_WIDTH, GRID_HEIGHT) {
        var i :| 0 <= i < |samples| && c !in BombSet(samples[i], GRID_WIDTH, GRID_HEIGHT);
        if i > 0 {
          assert samples[1..][i - 1] == samples[i];
        }
      }
      if exists i :: 0 <= i < |samples[1..]| && c !in BombSet(samples[1..][i], GRID_WIDTH, GRID_HEIGHT) {
        var i :| 0 <= i < |samples[1..]| && c !in BombSet(samples[1..][i], GRID_WIDTH, GRID_HEIGHT);
        assert samples[i + 1] == samples[1..][i];
      }
    }
  }

  /** Regeneration keeps the mine count, adds no flag, and leaves no mine gone
      off on the board. */
  lemma {:induction false} RegenerateKeepsMines(b: Board, c: Coords, samples: seq<seq<int>>)
    requires IsRect(b, GRID_WIDTH, GRID_HEIGHT) && InBounds(c, GRID_WIDTH, GRID_HEIGHT)
    requires ValidSamples(samples)
    requires |MineCells(b)| == BOMB_COUNT && MineCells(b) == BombCells(b)
    ensures |MineCells(Regenerate(b, c, samples))| == BOMB_COUNT
    ensures MineCells(Regenerate(b, c, samples)) == BombCells(Regenerate(b, c, samples))
    ensures FlagCells(Regenerate(b, c, samples)) <= FlagCells(b)
    decreases |samples|
  {
    if Get(b, c).value == BOMB && samples != [] {
      var g := Generated(GRID_WIDTH, GRID_HEIGHT, samples[0]);
      GeneratedBoard(GRID_WIDTH, GRID_HEIGHT, samples[0]);
      GeneratedMineCount(GRID_WIDTH, GRID_HEIGHT, samples[0], BOMB_COUNT);
      assert FlagCells(g) == {};
      RegenerateKeepsMines(g, c, samples[1..]);
    }
  }

  /** The first left click keeps the player's flags: they are put back on the
      regenerated board, and no other flag appears. */
  lemma FirstClickKeepsFlags(b: Board, c: Coords, samples: seq<seq<int>>)
    requires IsRect(b, GRID_WIDTH, GRID_HEIGHT) && InBounds(c, GRID_WIDTH, GRID_HEIGHT)
    requires ValidSamples(samples)
    requires |MineCells(b)| == BOMB_COUNT && MineCells(b) == BombCells(b)
    ensures FlagCells(FirstClickBoard(b, c, samples)) == FlagCells(b)
  {
    var r := Regenerate(b, c, samples);
    RegenerateKeepsMines(b, c, samples);
    ApplyFlagsOutcome(r, FlagCells(b));
    assert Cells(r) == Cells(b);
  }

  /** When some drawn board leaves the clicked cell free (or the field already
      does), the first left click never loses: the game is STARTED or already
      won, and the clicked cell is shown. */
  lemma FirstClickIsSafe(s: State, c: Coords, samples: seq<seq<int>>)
    requires IsRect(s.board, GRID_WIDTH, GRID_HEIGHT) && InBounds(c, GRID_WIDTH, GRID_HEIGHT)
    requires AcceptsClicks(s.gameState) && s.isFirstClick
    requires Get(s.board, c).value != BOMB ||
             exists i :: 0 <= i < |samples| && c !in BombSet(samples[i], GRID_WIDTH, GRID_HEIGHT)
    ensures LeftClick(s, c, samples).gameState in {STARTED, WON}
    ensures Get(LeftClick(s, c, samples).board, c).mask == NO
    ensures Get(LeftClick(s, c, samples).board, c).value != BOMB
  {
    RegenerateSafe(s.board, c, samples);
    var b0 := FirstClickBoard(s.board, c, samples);
    ExpandRevealsNoMine(b0, c);
  }

  // ------------------------------------------------------------ later clicks

  /** Every accepted left click shows the clicked cell; a click on a mine loses
      the game, shows every unit but the flagged mines, and turns wrong flags
      into BOMB_MISTAKEN. */
  lemma LeftClickOnMine(s: State, c: Coords, samples: seq<seq<int>>)
    requires IsRect(s.board, GRID_WIDTH, GRID_HEIGHT) && InBounds(c, GRID_WIDTH, GRID_HEIGHT)
    requires AcceptsClicks(s.gameState) && !s.isFirstClick
    requires Get(s.board, c).value == BOMB
    requires |MineCells(s.board)| == BOMB_COUNT && MineCells(s.board) == BombCells(s.board)
    ensures LeftClick(s, c, samples).gameState == GAME_OVER
    ensures Get(LeftClick(s, c, samples).board, c) == Cell(BOMB_EXPLODED, NO)
    ensures forall d :: InBounds(d, GRID_WIDTH, GRID_HEIGHT) && d != c ==>
              var u := Get(LeftClick(s, c, samples).board, d);
              (u.mask == NO) != (u.mask == FLAG && u.value == BOMB)
    ensures forall d :: InBounds(d, GRID_WIDTH, GRID_HEIGHT) && Get(s.board, d).mask == FLAG && Get(s.board, d).value != BOMB ==>
              Get(LeftClick(s, c, samples).board, d) == Cell(BOMB_MISTAKEN, NO)
  {
    var b1 := Expand(s.board, c);
    ExpandRevealsNoMine(s.board, c);
    MasksOnly(s.board, b1);
    LossKeepsMines(b1, c);
    ExplodedNeverWins(LossReveal(b1, c), c, BOMB_COUNT);
    forall d | InBounds(d, GRID_WIDTH, GRID_HEIGHT)
      ensures d != c ==> var u := Get(LossReveal(b1, c), d); (u.mask == NO) != (u.mask == FLAG && u.value == BOMB)
      ensures Get(s.board, d).mask == FLAG && Get(s.board, d).value != BOMB ==>
                Get(LossReveal(b1, c), d) == Cell(BOMB_MISTAKEN, NO)
    {
      LossRevealOutcome(b1, c, d);
    }
  }

  /** Clicking the same cell twice is the same as clicking it once. */
  lemma LeftClickIdempotent(s: State, c: Coords, samples: seq<seq<int>>, samples2: seq<seq<int>>)
    requires IsRect(s.board, GRID_WIDTH, GRID_HEIGHT) && InBounds(c, GRID_WIDTH, GRID_HEIGHT)
    ensures LeftClick(LeftClick(s, c, samples), c, samples2) == LeftClick(s, c, samples)
  {
    var s1 := LeftClick(s, c, samples);
    if AcceptsClicks(s.gameState) && AcceptsClicks(s1.gameState) {
      var b0 := if s.isFirstClick then FirstClickBoard(s.board, c, samples) else s.board;
      ExpandIdempotent(b0, c);
      ExpandRevealsNoMine(b0, c);
    }
  }

  /** Three right clicks on a cell bring its mask back, unless the game ended
      on the way. */
  lemma RightClickThrice(s: State, c: Coords)
    requires IsRect(s.board, GRID_WIDTH, GRID_HEIGHT) && InBounds(c, GRID_WIDTH, GRID_HEIGHT)
    requires AcceptsClicks(RightClick(s, c).gameState) && AcceptsClicks(RightClick(RightClick(s, c), c).gameState)
    ensures RightClick(RightClick(RightClick(s, c), c), c).board == s.board
  {
    CycleMaskPeriod(Get(s.board, c).mask);
    var b3 := RightClick(RightClick(RightClick(s, c), c), c).board;
    BoardsEqual(b3, s.board);
  }

  /** A right click flags a cell exactly when it was LOCKED; flagging adds the
      cell to the marked ones and unflagging takes it out. */
  lemma RightClickFlags(s: State, c: Coords)
    requires IsRect(s.board, GRID_WIDTH, GRID_HEIGHT) && InBounds(c, GRID_WIDTH, GRID_HEIGHT)
    requires AcceptsClicks(s.gameState) && Get(s.board, c).value != BOMB_MISTAKEN
    ensures Get(RightClick(s, c).board, c).mask == FLAG <==> Get(s.board, c).mask == LOCKED
    ensures Get(s.board, c).mask == LOCKED ==> |Marked(RightClick(s, c).board)| == |Marked(s.board)| + 1
    ensures Get(s.board, c).mask == FLAG ==> |Marked(RightClick(s, c).board)| + 1 == |Marked(s.board)|
  {
    var u := Get(s.board, c);
    assert RightClick(s, c).board == Put(s.board, c, Cell(u.value, CycleMask(u.mask)));
    CycleMarks(s.board, c);
  }

  /** One step of the mask cycle on a unit that is not a wrong flag. */
  lemma CycleMarks(b: Board, c: Coords)
    requires Within(b, c) && Get(b, c).value != BOMB_MISTAKEN
    ensures var r := Put(b, c, Cell(Get(b, c).value, CycleMask(Get(b, c).mask)));
            && Within(r, c)
            && (Get(r, c).mask == FLAG <==> Get(b, c).mask == LOCKED)
            && (Get(b, c).mask == LOCKED ==> |Marked(r)| == |Marked(b)| + 1)
            && (Get(b, c).mask == FLAG ==> |Marked(r)| + 1 == |Marked(b)|)
  {
    var u := Get(b, c);
    var r := Put(b, c, Cell(u.value, CycleMask(u.mask)));
    assert Get(r, c) == Cell(u.value, CycleMask(u.mask));
    MarkedAfterPut(b, c, Cell(u.value, CycleMask(u.mask)));
    if u.mask == LOCKED {
      assert c !in Marked(b);
      assert Marked(r) == Marked(b) + {c};
    }
    if u.mask == FLAG {
      assert Marked(r) == Marked(b) - {c};
      assert c in Marked(b);
    }
  }

  /** On a consistent field the mine counter follows the right click: down by
      one for a new flag, up by one for a removed flag, and unchanged when a
      question mark is set or cleared or the unit is shown. */
  lemma RightClickCounter(s: State, c: Coords)
    requires Consistent(s) && InBounds(c, GRID_WIDTH, GRID_HEIGHT)
    requires AcceptsClicks(s.gameState) && Get(s.board, c).value != BOMB_MISTAKEN
    ensures Get(s.board, c).mask == LOCKED ==> RightClick(s, c).bombCounter == s.bombCounter - 1
    ensures Get(s.board, c).mask == FLAG ==> RightClick(s, c).bombCounter == s.bombCounter + 1
    ensures Get(s.board, c).mask in {NO, LOCKED_QUESTION} ==> RightClick(s, c).bombCounter == s.bombCounter
  {
    var u := Get(s.board, c);
    RightClickFlags(s, c);
    MarkedAfterPut(s.board, c, Cell(u.value, CycleMask(u.mask)));
    if u.mask in {NO, LOCKED_QUESTION} {
      assert Marked(RightClick(s, c).board) == Marked(s.board);
    }
  }

  // --------------------------------------------------------------- invariant

  /** What holds of the playing field between two events: a 16 x 16 board
      with 40 mines; the game is over exactly when a mine has gone off, and won
      exactly when the win test passes; the counter shows the unmarked mines;
      and a game whose first left click is behind it has started. */
  ghost predicate Consistent(s: State) {
    && IsRect(s.board, GRID_WIDTH, GRID_HEIGHT)
    && |MineCells(s.board)| == BOMB_COUNT
    && (s.gameState == GAME_OVER <==> MineCells(s.board) != BombCells(s.board))
    && (s.gameState == WON <==> WinCheck(s.board, BOMB_COUNT))
    && s.bombCounter == BOMB_COUNT - |Marked(s.board)|
    && (!s.isFirstClick ==> s.gameState != NOT_STARTED)
  }

  /** A new field starts consistent, not started, with the full counter. */
  lemma FreshConsistent(sample: seq<int>)
    requires ValidSample(sample, GRID_WIDTH, GRID_HEIGHT, BOMB_COUNT)
    ensures Consistent(Fresh(sample))
    ensures Fresh(sample).gameState == NOT_STARTED && Fresh(sample).bombCounter == BOMB_COUNT
  {
    var g := Generated(GRID_WIDTH, GRID_HEIGHT, sample);
    GeneratedBoard(GRID_WIDTH, GRID_HEIGHT, sample);
    GeneratedMineCount(GRID_WIDTH, GRID_HEIGHT, sample, BOMB_COUNT);
    CorrectWithinMarked(g);
  }

  lemma TickConsistent(s: State)
    requires Consistent(s)
    ensures Consistent(Tick(s))
  {
  }

  lemma RightClickConsistent(s: State, c: Coords)
    requires Consistent(s) && InBounds(c, GRID_WIDTH, GRID_HEIGHT)
    ensures Consistent(RightClick(s, c))
  {
    if AcceptsClicks(s.gameState) {
      var u := Get(s.board, c);
      MasksOnly(s.board, Put(s.board, c, Cell(u.value, CycleMask(u.mask))));
    }
  }

  /** Every left click keeps the state consistent; in particular a lost game
      is never also won. */
  lemma LeftClickConsistent(s: State, c: Coords, samples: seq<seq<int>>)
    requires Consistent(s) && InBounds(c, GRID_WIDTH, GRID_HEIGHT) && ValidSamples(samples)
    ensures Consistent(LeftClick(s, c, samples))
  {
    if AcceptsClicks(s.gameState) {
      var b0 := if s.isFirstClick then FirstClickBoard(s.board, c, samples) else s.board;
      if s.isFirstClick {
        var r := Regenerate(s.board, c, samples);
        RegenerateKeepsMines(s.board, c, samples);
        MasksOnly(r, b0);
      }
      var b1 := Expand(b0, c);
      ExpandRevealsNoMine(b0, c);
      MasksOnly(b0, b1);
      if Get(b1, c).value == BOMB {
        LossKeepsMines(b1, c);
        ExplodedNeverWins(LossReveal(b1, c), c, BOMB_COUNT);
      }
    }
  }
}
