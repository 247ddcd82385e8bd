// The playing field component as an object: its React state lives in fields,
// and each handler updates them in place. Every handler is proved to move the
// state exactly as the matching GameRules function says.
module Game {
  import opened Enums
  import opened Types
  import opened ArrayUtils
  import opened Sets
  import opened Rules
  import opened GameRules
  import opened Engine

  /** A copy made by copyMatrix shows the same board and holds the same units. */
  lemma SameUnits(g: Grid, copy: Grid)
    requires |copy| == |g| && forall i :: 0 <= i < |g| ==> |copy[i]| == |g[i]|
    requires forall i, j :: 0 <= i < |g| && 0 <= j < |g[i]| ==> copy[i][j] == g[i][j]
    ensures View(copy) == View(g) && Units(copy) == Units(g)
  {
    assert forall i :: 0 <= i < |g| ==> View(copy)[i] == View(g)[i];
    forall u | u in Units(g) ensures u in Units(copy) {
      var i, j :| 0 <= i < |g| && 0 <= j < |g[i]| && u == g[i][j];
      assert u == copy[i][j];
    }
  }

  /** One round of the regeneration loop, and its end. */
  lemma RegenerateStep(b: Board, c: Coords, samples: seq<seq<int>>, k: nat)
    requires IsRect(b, GRID_WIDTH, GRID_HEIGHT) && InBounds(c, GRID_WIDTH, GRID_HEIGHT) && k <= |samples|
    ensures k < |samples| && Get(b, c).value == BOMB ==>
              Regenerate(b, c, samples[k..]) == Regenerate(Generated(GRID_WIDTH, GRID_HEIGHT, samples[k]), c, samples[k + 1..])
    ensures k == |samples| || Get(b, c).value != BOMB ==> Regenerate(b, c, samples[k..]) == b
  {
    if k < |samples| {
      assert samples[k..][1..] == samples[k + 1..];
    }
  }

  /** `generateField()` on the playing field's own dimensions, with the
      indexes `randomNumbers(0, 255, 40)` returned. */
  method GenerateFromSample(sample: seq<int>) returns (newField: Grid)
    requires ValidSample(sample, GRID_WIDTH, GRID_HEIGHT, BOMB_COUNT)
    ensures Shaped(newField, GRID_WIDTH, GRID_HEIGHT)
    ensures forall u :: u in Units(newField) ==> fresh(u)
    ensures View(newField) == Generated(GRID_WIDTH, GRID_HEIGHT, sample)
  {
    assert forall i :: 0 <= i < |sample| ==> sample[i] in sample;
    newField := GenerateField(GRID_WIDTH, GRID_HEIGHT, sample);
  }

  /** `while (newField[y][x].cellValue == CellValue.BOMB) newField = generateField()`,
      each new field built from the next sample; the loop also stops when the
      samples run out. */
  method RegenerateField(g: Grid, c: Coords, samples: seq<seq<int>>) returns (newField: Grid)
    requires Shaped(g, GRID_WIDTH, GRID_HEIGHT) && InBounds(c, GRID_WIDTH, GRID_HEIGHT)
    requires ValidSamples(samples)
    ensures Shaped(newField, GRID_WIDTH, GRID_HEIGHT)
    ensures newField == g || forall u :: u in Units(newField) ==> fresh(u)
    ensures View(newField) == Regenerate(View(g), c, samples)
  {
    ghost var b := View(g);
    newField := g;
    var k := 0;
    while newField[c.y][c.x].cellValue == BOMB && k < |samples|
      invariant 0 <= k <= |samples|
      invariant Shaped(newField, GRID_WIDTH, GRID_HEIGHT)
      invariant newField == g || forall u :: u in Units(newField) ==> fresh(u)
      invariant Regenerate(View(newField), c, samples[k..]) == Regenerate(b, c, samples)
      decreases |samples| - k
    {
      ghost var before := View(newField);
      assert Get(before, c).value == BOMB;
      RegenerateStep(before, c, samples, k);
      newField := GenerateFromSample(samples[k]);
      k := k + 1;
    }
    RegenerateStep(View(newField), c, samples, k);
    assert unchanged(Units(g));
  }

  /** Putting a flag on one more cell of the set. */
  lemma ApplyFlagsStep(b: Board, F: set<Coords>, c: Coords)
    requires Within(b, c)
    ensures Put(ApplyFlags(b, F), c, Cell(Get(b, c).value, FLAG)) == ApplyFlags(b, F + {c})
  {
    BoardsEqual(Put(ApplyFlags(b, F), c, Cell(Get(b, c).value, FLAG)), ApplyFlags(b, F + {c}));
  }

  /** `flagsCoords.forEach(({ x, y }) => newField[y][x].cellMask = CellMask.FLAG)`. */
  method PutFlagsBack(newField: Grid, flagsCoords: seq<Coords>)
    requires Shaped(newField, GRID_WIDTH, GRID_HEIGHT)
    requires forall k :: 0 <= k < |flagsCoords| ==> InBounds(flagsCoords[k], GRID_WIDTH, GRID_HEIGHT)
    modifies Units(newField)
    ensures View(newField) == ApplyFlags(old(View(newField)), Elems(flagsCoords))
  {
    ghost var b := View(newField);
    BoardsEqual(ApplyFlags(b, {}), b);
    assert Elems(flagsCoords[..0]) == {};
    for k := 0 to |flagsCoords|
      invariant View(newField) == ApplyFlags(b, Elems(flagsCoords[..k]))
    {
      assert Elems(flagsCoords[..k + 1]) == Elems(flagsCoords[..k]) + {flagsCoords[k]} by {
        assert flagsCoords[..k + 1] == flagsCoords[..k] + [flagsCoords[k]];
      }
      ApplyFlagsStep(b, Elems(flagsCoords[..k]), flagsCoords[k]);
      SetMask(newField, flagsCoords[k], FLAG, GRID_WIDTH, GRID_HEIGHT);
    }
    assert flagsCoords[..|flagsCoords|] == flagsCoords;
  }

  /** The opening of a first left click: the board is regenerated until the
      clicked cell is safe, then the old board's flags are put back. */
  method FirstClickField(field: Grid, copy: Grid, c: Coords, samples: seq<seq<int>>) returns (newField: Grid)
    requires Shaped(field, GRID_WIDTH, GRID_HEIGHT) && InBounds(c, GRID_WIDTH, GRID_HEIGHT)
    requires ValidSamples(samples)
    requires Shaped(copy, GRID_WIDTH, GRID_HEIGHT) && View(copy) == View(field) && Units(copy) == Units(field)
    modifies Units(field)
    ensures Shaped(newField, GRID_WIDTH, GRID_HEIGHT)
    ensures forall u :: u in Units(newField) ==> u in Units(field) || fresh(u)
    ensures View(newField) == FirstClickBoard(old(View(field)), c, samples)
  {
    ghost var b := View(field);
    var flagsCoords := GetFlagsCoords(field, GRID_WIDTH, GRID_HEIGHT);
    assert forall k :: 0 <= k < |flagsCoords| ==> InBounds(flagsCoords[k], GRID_WIDTH, GRID_HEIGHT) by {
      forall k | 0 <= k < |flagsCoords|
        ensures InBounds(flagsCoords[k], GRID_WIDTH, GRID_HEIGHT)
      {
        assert flagsCoords[k] in FlagCells(b);
      }
    }
    assert unchanged(Units(field));
    newField := RegenerateField(copy, c, samples);
    ghost var r := View(newField);
    assert r == Regenerate(b, c, samples);
    PutFlagsBack(newField, flagsCoords);
  }

  /** The end of every left click: expandArea from the clicked cell, and when
      that cell holds a mine, the explosion and the sweep of the whole grid. */
  method Play(newField: Grid, c: Coords) returns (lost: bool)
    requires Shaped(newField, GRID_WIDTH, GRID_HEIGHT) && InBounds(c, GRID_WIDTH, GRID_HEIGHT)
    modifies Units(newField)
    ensures lost == (Get(Expand(old(View(newField)), c), c).value == BOMB)
    ensures View(newField) == if lost then LossReveal(Expand(old(View(newField)), c), c)
                              else Expand(old(View(newField)), c)
  {
    var currentUnit := newField[c.y][c.x];
    ExpandArea(newField, c, GRID_WIDTH, GRID_HEIGHT);
    ghost var b1 := View(newField);
    lost := currentUnit.cellValue == BOMB;
    if lost {
      currentUnit.cellValue := BOMB_EXPLODED;
      assert View(newField) == Put(b1, c, Cell(BOMB_EXPLODED, Get(b1, c).mask)) by {
        BoardsEqual(View(newField), Put(b1, c, Cell(BOMB_EXPLODED, Get(b1, c).mask)));
      }
      LossSweep(newField, GRID_WIDTH, GRID_HEIGHT);
      LossRevealSweeps(b1, c);
    }
  }

  /** The mask change of `handleCellRightClick`: LOCKED becomes FLAG, FLAG
      becomes LOCKED_QUESTION, LOCKED_QUESTION becomes LOCKED, and a shown
      unit stays as it is. */
  method CycleUnitMask(newField: Grid, c: Coords)
    requires Shaped(newField, GRID_WIDTH, GRID_HEIGHT) && InBounds(c, GRID_WIDTH, GRID_HEIGHT)
    modifies newField[c.y][c.x]
    ensures View(newField) == Put(old(View(newField)), c, Cell(Get(old(View(newField)), c).value,
                                                               CycleMask(Get(old(View(newField)), c).mask)))
  {
    var currentUnit := newField[c.y][c.x];
    ghost var b := View(newField);
    if currentUnit.cellMask == LOCKED {
      SetMask(newField, c, FLAG, GRID_WIDTH, GRID_HEIGHT);
    } else if currentUnit.cellMask == FLAG {
      SetMask(newField, c, LOCKED_QUESTION, GRID_WIDTH, GRID_HEIGHT);
    } else if currentUnit.cellMask == LOCKED_QUESTION {
      SetMask(newField, c, LOCKED, GRID_WIDTH, GRID_HEIGHT);
    } else {
      BoardsEqual(b, Put(b, c, Get(b, c)));
    }
  }

  /** The grid part of `handleCellRightClick`: a copy of the rows, and the
      mask of the clicked unit cycled. */
  method RightClickField(field: Grid, c: Coords) returns (newField: Grid)
    requires Shaped(field, GRID_WIDTH, GRID_HEIGHT) && InBounds(c, GRID_WIDTH, GRID_HEIGHT)
    modifies Units(field)
    ensures Shaped(newField, GRID_WIDTH, GRID_HEIGHT) && Units(newField) == Units(field)
    ensures View(newField) == Put(old(View(field)), c, Cell(Get(old(View(field)), c).value,
                                                            CycleMask(Get(old(View(field)), c).mask)))
  {
    newField := CopyMatrix(field);
    SameUnits(field, newField);
    CycleUnitMask(newField, c);
  }

  /** The grid part of `handleCellLeftClick`: a copy of the rows, on the
      first click the regenerated board with the flags put back, then the
      area opened and, on a mine, the loss. */
  method LeftClickField(field: Grid, c: Coords, samples: seq<seq<int>>, firstClick: bool)
      returns (newField: Grid, lost: bool)
    requires Shaped(field, GRID_WIDTH, GRID_HEIGHT) && InBounds(c, GRID_WIDTH, GRID_HEIGHT)
    requires ValidSamples(samples)
    modifies Units(field)
    ensures Shaped(newField, GRID_WIDTH, GRID_HEIGHT)
    ensures forall u :: u in Units(newField) ==> u in Units(field) || fresh(u)
    ensures var b0 := if firstClick then FirstClickBoard(old(View(field)), c, samples) else old(View(field));
            && lost == (Get(Expand(b0, c), c).value == BOMB)
            && View(newField) == if lost then LossReveal(Expand(b0, c), c) else Expand(b0, c)
  {
    var copy := CopyMatrix(field);
    SameUnits(field, copy);
    newField := copy;
    if firstClick {
      newField := FirstClickField(field, copy, c, samples);
    }
    lost := Play(newField, c);
  }

  class PlayingField {
    var gameState: GameState
    var field: Grid
    var isFirstClick: bool
    var bombCounter: int
    var time: int

    /** The field is a 16 x 16 grid whose units carry their own coordinates. */
    ghost predicate Valid()
      reads this
    {
      Shaped(field, GRID_WIDTH, GRID_HEIGHT)
    }

    /** The component's state as a value. */
    ghost function Abstract(): State
      reads this, Units(field)
    {
      State(gameState, View(field), isFirstClick, bombCounter, time)
    }

    /** Mounting the component: a new field, then the field effect. */
    constructor (sample: seq<int>)
      requires ValidSample(sample, GRID_WIDTH, GRID_HEIGHT, BOMB_COUNT)
      ensures Valid() && Abstract() == Fresh(sample)
    {
      var newField := GenerateFromSample(sample);
      gameState := NOT_STARTED;
      field := newField;
      isFirstClick := true;
      bombCounter := BOMB_COUNT;
      time := 0;
      new;
      assert forall i :: 0 <= i < |sample| ==> sample[i] in sample;
      FieldEffect();
    }

    /** The effect that runs on every new field: the counter shows the mines
        left unmarked, and the game is won once every mark is a flagged mine
        and all BOMB_COUNT mines are flagged. */
    method FieldEffect()
      requires Valid()
      modifies this
      ensures Valid() && field == old(field)
      ensures Abstract() == AfterFieldChange(old(Abstract()))
    {
      var markedAtAll, markedCorrectly := CountMarkedBombs(field, GRID_WIDTH, GRID_HEIGHT);
      bombCounter := BOMB_COUNT - markedAtAll;
      if markedAtAll == markedCorrectly && markedCorrectly == BOMB_COUNT {
        gameState := WON;
      }
      assert unchanged(Units(field));
    }

    /** One tick of the one-second interval that runs while the game is
        STARTED. */
    method Tick()
      modifies this
      ensures field == old(field)
      ensures Abstract() == GameRules.Tick(old(Abstract()))
    {
      if gameState == STARTED {
        time := time + 1;
      }
      assert unchanged(Units(field));
    }

    /** React applies the state updates a handler queued together, once the
        handler returns; the new field then runs the field effect. */
    method Commit(gs: GameState, newField: Grid, firstClick: bool, counter: int, t: int)
      requires Shaped(newField, GRID_WIDTH, GRID_HEIGHT)
      modifies this
      ensures Valid()
      ensures Abstract() == AfterFieldChange(State(gs, old(View(newField)), firstClick, counter, t))
    {
      ghost var b := View(newField);
      gameState, field, isFirstClick, bombCounter, time := gs, newField, firstClick, counter, t;
      assert unchanged(Units(newField));
      assert View(field) == b;
      FieldEffect();
    }

    /** `onSmileyClick`: a new game on a new field. */
    method OnSmileyClick(sample: seq<int>)
      requires ValidSample(sample, GRID_WIDTH, GRID_HEIGHT, BOMB_COUNT)
      modifies this
      ensures Valid() && Abstract() == Fresh(sample)
    {
      var newField := GenerateFromSample(sample);
      Commit(NOT_STARTED, newField, true, BOMB_COUNT, 0);
    }

    /** `handleCellRightClick(coords)`: cycles the mask of a hidden unit, then
        the field effect runs on the new field. */
    method HandleCellRightClick(coords: Coords)
      requires Valid() && InBounds(coords, GRID_WIDTH, GRID_HEIGHT)
      modifies this, Units(field)
      ensures Valid()
      ensures Abstract() == RightClick(old(Abstract()), coords)
    {
      if gameState != NOT_STARTED && gameState != STARTED {
        return;
      }
      var gs := gameState;
      if isFirstClick {
        gs := STARTED;
      }
      var newField := RightClickField(field, coords);
      Commit(gs, newField, isFirstClick, bombCounter, time);
    }

    /** `handleCellLeftClick(coords)`: on the first click the board is
        regenerated until the cell is safe and the flags are put back; then
        the area around the cell is opened, a mine there ends the game, and
        the field effect runs on the new field. */
    method HandleCellLeftClick(coords: Coords, samples: seq<seq<int>>)
      requires Valid() && InBounds(coords, GRID_WIDTH, GRID_HEIGHT)
      requires ValidSamples(samples)
      modifies this, Units(field)
      ensures Valid()
      ensures Abstract() == LeftClick(old(Abstract()), coords, samples)
    {
      if gameState != NOT_STARTED && gameState != STARTED {
        return;
      }
      var gs := gameState;
      if isFirstClick {
        gs := STARTED;
      }
      var newField, lost := LeftClickField(field, coords, samples, isFirstClick);
      if lost {
        gs := GAME_OVER;
      }
      Commit(gs, newField, false, bombCounter, time);
    }
  }
}
