// The rules of the game on board snapshots: neighbourhoods and mine counts,
// board generation, the flood fill that reveals an area, the reveal after a
// lost game, flag cycling and the win condition. Every operation of the
// engine and of the playing field is specified by these functions.
module Rules {
  import opened Enums
  import opened Types
  import opened ArrayUtils
  import opened Sets
  import opened Random

  /** `field[y]?.[x]` names a unit. */
  predicate Within(b: Board, c: Coords) {
    0 <= c.y < |b| && 0 <= c.x < |b[c.y]|
  }

  function Get(b: Board, c: Coords): Cell
    requires Within(b, c)
  {
    b[c.y][c.x]
  }

  /** All positions of the board. */
  function Cells(b: Board): (r: set<Coords>)
    ensures forall c :: c in r <==> Within(b, c)
  {
    set y, x | 0 <= y < |b| && 0 <= x < |b[y]| :: Coords(x, y)
  }

  /** The eight neighbours of a cell (the centre is not its own neighbour). */
  predicate Adjacent(n: Coords, c: Coords) {
    n != c && -1 <= n.x - c.x <= 1 && -1 <= n.y - c.y <= 1
  }

  function Ring(c: Coords): (r: set<Coords>)
    ensures |r| <= 8
    ensures forall n :: Adjacent(n, c) ==> n in r
  {
    {Coords(c.x - 1, c.y - 1), Coords(c.x, c.y - 1), Coords(c.x + 1, c.y - 1),
     Coords(c.x - 1, c.y), Coords(c.x + 1, c.y),
     Coords(c.x - 1, c.y + 1), Coords(c.x, c.y + 1), Coords(c.x + 1, c.y + 1)}
  }

  /** The neighbours of c on the board that hold a mine. */
  function BombNeighbours(b: Board, c: Coords): (r: set<Coords>)
    ensures forall n :: n in r <==> Within(b, n) && Adjacent(n, c) && Get(b, n).value == BOMB
  {
    set n | n in Cells(b) && Adjacent(n, c) && Get(b, n).value == BOMB
  }

  /** The number of mines around c; at most eight. */
  function BombsAround(b: Board, c: Coords): (k: nat)
    ensures k <= 8
    ensures k == |BombNeighbours(b, c)|
  {
    SubsetSize(BombNeighbours(b, c), Ring(c));
    |BombNeighbours(b, c)|
  }

  /** Two boards with mines in the same places have the same counts. */
  lemma SameMinesSameCounts(b1: Board, b2: Board, c: Coords)
    requires Cells(b1) == Cells(b2)
    requires forall n :: Within(b1, n) ==> (Get(b1, n).value == BOMB <==> Get(b2, n).value == BOMB)
    ensures BombsAround(b1, c) == BombsAround(b2, c)
  {
    assert BombNeighbours(b1, c) == BombNeighbours(b2, c);
  }

  // ---------------------------------------------------------------- generation

  /** The cells named by a list of mine indexes. */
  function BombSet(bombIndexes: seq<int>, w: int, h: int): set<Coords>
    requires w > 0 && h > 0
  {
    set i | i in bombIndexes :: CoordsByIndex(i, w, h)
  }

  /** The grid after the mines are placed: every unit LOCKED, a mine on each
      chosen cell, EMPTY elsewhere. */
  function Layout(w: nat, h: nat, bombs: set<Coords>): (b: Board)
    ensures IsRect(b, w, h)
    ensures forall c :: Within(b, c) ==>
              Get(b, c) == Cell(if c in bombs then BOMB else EMPTY, LOCKED)
  {
    seq(h, y requires 0 <= y < h =>
      seq(w, x requires 0 <= x < w =>
        Cell(if Coords(x, y) in bombs then BOMB else EMPTY, LOCKED)))
  }

  /** Every EMPTY cell takes the number of mines around it. */
  function Numbered(b: Board): (r: Board)
    ensures |r| == |b| && forall y :: 0 <= y < |b| ==> |r[y]| == |b[y]|
    ensures forall c :: Within(b, c) ==>
              Get(r, c) == if Get(b, c).value == EMPTY
                           then Cell(CountValue(BombsAround(b, c)), Get(b, c).mask)
                           else Get(b, c)
  {
    seq(|b|, y requires 0 <= y < |b| =>
      seq(|b[y]|, x requires 0 <= x < |b[y]| =>
        if b[y][x].value == EMPTY
        then Cell(CountValue(BombsAround(b, Coords(x, y))), b[y][x].mask)
        else b[y][x]))
  }

  /** The board generateField produces from the indexes randomNumbers drew. */
  function Generated(w: nat, h: nat, bombIndexes: seq<int>): Board
    requires w > 0 && h > 0
  {
    Numbered(Layout(w, h, BombSet(bombIndexes, w, h)))
  }

  /** The cells of a board that hold a mine. */
  function BombCells(b: Board): (r: set<Coords>)
    ensures forall c :: c in r <==> Within(b, c) && Get(b, c).value == BOMB
  {
    set c | c in Cells(b) && Get(b, c).value == BOMB
  }

  /** A generated board is hidden everywhere, has its mines exactly on the
      chosen cells, and every other cell shows how many of its neighbours
      hold a mine on that same board. */
  lemma GeneratedBoard(w: nat, h: nat, bombIndexes: seq<int>)
    requires w > 0 && h > 0
    ensures IsRect(Generated(w, h, bombIndexes), w, h)
    ensures BombCells(Generated(w, h, bombIndexes)) == BombSet(bombIndexes, w, h) * Cells(Generated(w, h, bombIndexes))
    ensures forall c :: Within(Generated(w, h, bombIndexes), c) ==>
              && Get(Generated(w, h, bombIndexes), c).mask == LOCKED
              && (Get(Generated(w, h, bombIndexes), c).value != BOMB ==>
                    Get(Generated(w, h, bombIndexes), c).value - EMPTY
                    == BombsAround(Generated(w, h, bombIndexes), c))
  {
    var lay := Layout(w, h, BombSet(bombIndexes, w, h));
    var g := Generated(w, h, bombIndexes);
    forall c | Within(g, c) && Get(g, c).value != BOMB
      ensures Get(g, c).value - EMPTY == BombsAround(g, c)
    {
      SameMinesSameCounts(lay, g, c);
    }
  }

  /** What randomNumbers(0, w * h - 1, n) returns: n distinct indexes of cells. */
  predicate ValidSample(bombIndexes: seq<int>, w: int, h: int, n: int) {
    && |bombIndexes| == n
    && Distinct(bombIndexes)
    && forall i :: i in bombIndexes ==> 0 <= i < w * h
  }

  lemma BombSetSnoc(init: seq<int>, last: int, w: int, h: int)
    requires w > 0 && h > 0
    ensures BombSet(init + [last], w, h) == BombSet(init, w, h) + {CoordsByIndex(last, w, h)}
  {
    assert forall i :: i in init + [last] <==> i in init || i == last;
  }

  /** Distinct indexes inside the grid name as many distinct cells. */
  lemma {:induction false} BombSetSize(bombIndexes: seq<int>, w: int, h: int)
    requires w > 0 && h > 0 && Distinct(bombIndexes)
    requires forall i :: i in bombIndexes ==> 0 <= i < w * h
    ensures |BombSet(bombIndexes, w, h)| == |bombIndexes|
    ensures forall c :: c in BombSet(bombIndexes, w, h) ==> InBounds(c, w, h)
  {
    if bombIndexes != [] {
      var init := bombIndexes[..|bombIndexes| - 1];
      var last := bombIndexes[|bombIndexes| - 1];
      assert bombIndexes == init + [last];
      assert last in bombIndexes;
      assert forall i :: i in init ==> i in bombIndexes;
      BombSetSize(init, w, h);
      BombSetSnoc(init, last, w, h);
      CoordsByIndexInBounds(last, w, h);
      if CoordsByIndex(last, w, h) in BombSet(init, w, h) {
        var i :| i in init && CoordsByIndex(i, w, h) == CoordsByIndex(last, w, h);
        CoordsByIndexInjective(i, last, w, h);
      }
    }
  }

  /** A board generated from a valid sample holds exactly n mines. */
  lemma GeneratedMineCount(w: nat, h: nat, bombIndexes: seq<int>, n: int)
    requires w > 0 && h > 0 && ValidSample(bombIndexes, w, h, n)
    ensures BombCells(Generated(w, h, bombIndexes)) == BombSet(bombIndexes, w, h)
    ensures |BombCells(Generated(w, h, bombIndexes))| == n
    ensures MineCells(Generated(w, h, bombIndexes)) == BombCells(Generated(w, h, bombIndexes))
    ensures Marked(Generated(w, h, bombIndexes)) == {}
  {
    GeneratedBoard(w, h, bombIndexes);
    BombSetSize(bombIndexes, w, h);
  }

  // ------------------------------------------------------------- area reveal

  /** Every cell of S loses its mask; values and all other cells stay. */
  function Reveal(b: Board, S: set<Coords>): (r: Board)
    ensures |r| == |b| && forall y :: 0 <= y < |b| ==> |r[y]| == |b[y]|
    ensures forall c :: Within(b, c) ==>
              Get(r, c) == if c in S then Cell(Get(b, c).value, NO) else Get(b, c)
  {
    seq(|b|, y requires 0 <= y < |b| =>
      seq(|b[y]|, x requires 0 <= x < |b[y]| =>
        if Coords(x, y) in S then Cell(b[y][x].value, NO) else b[y][x]))
  }

  /** Two boards of one shape that agree on every cell are equal. */
  lemma BoardsEqual(b1: Board, b2: Board)
    requires |b1| == |b2| && forall y :: 0 <= y < |b1| ==> |b1[y]| == |b2[y]|
    requires forall c :: Within(b1, c) ==> Get(b1, c) == Get(b2, c)
    ensures b1 == b2
  {
    forall y | 0 <= y < |b1| ensures b1[y] == b2[y] {
      forall x | 0 <= x < |b1[y]| ensures b1[y][x] == b2[y][x] {
        assert Within(b1, Coords(x, y));
      }
    }
  }

  /** Showing one more cell is revealing it along with the others. */
  lemma RevealOneMore(b: Board, S: set<Coords>, n: Coords)
    requires Within(b, n)
    ensures Within(Reveal(b, S), n)
    ensures Put(Reveal(b, S), n, Cell(Get(b, n).value, NO)) == Reveal(b, S + {n})
  {
    BoardsEqual(Put(Reveal(b, S), n, Cell(Get(b, n).value, NO)), Reveal(b, S + {n}));
  }

  /** Revealing in two rounds is revealing both sets at once. */
  lemma RevealTwice(b: Board, S: set<Coords>, T: set<Coords>)
    ensures Reveal(Reveal(b, S), T) == Reveal(b, S + T)
  {
    BoardsEqual(Reveal(Reveal(b, S), T), Reveal(b, S + T));
  }

  /** Revealing cells that are already revealed changes nothing. */
  lemma RevealRevealed(b: Board, S: set<Coords>)
    requires forall c :: c in S && Within(b, c) ==> Get(b, c).mask == NO
    ensures Reveal(b, S) == b
  {
    BoardsEqual(Reveal(b, S), b);
  }

  /** A cell the flood fill may enter: an EMPTY unit that is still hidden. */
  predicate Passable(b: Board, c: Coords) {
    Within(b, c) && Get(b, c).value == EMPTY && Get(b, c).mask != NO
  }

  /** A walk from p[0] through passable cells, each next to the one before. */
  ghost predicate IsPath(b: Board, p: seq<Coords>) {
    && |p| >= 1
    && Within(b, p[0])
    && forall i :: 1 <= i < |p| ==> Passable(b, p[i]) && Adjacent(p[i], p[i - 1])
  }

  ghost predicate Reachable(b: Board, s: Coords, c: Coords) {
    exists p :: IsPath(b, p) && p[0] == s && p[|p| - 1] == c
  }

  /** The cells the breadth-first search of expandArea visits from s. */
  ghost function Region(b: Board, s: Coords): (r: set<Coords>)
    ensures forall c :: c in r <==> Within(b, c) && Reachable(b, s, c)
  {
    set c | c in Cells(b) && Reachable(b, s, c)
  }

  /** The numbered cells next to some cell of R. */
  function NumberBorder(b: Board, R: set<Coords>): (r: set<Coords>)
    ensures forall n :: n in r <==>
              Within(b, n) && IsNumber(Get(b, n).value) && exists e :: e in R && Adjacent(n, e)
  {
    set n | n in Cells(b) && IsNumber(Get(b, n).value) && exists e :: e in R && Adjacent(n, e)
  }

  /** The cells expandArea reveals: the clicked cell alone unless it is EMPTY,
      else the region of the search and the numbers around it. */
  ghost function Revealed(b: Board, s: Coords): set<Coords>
    requires Within(b, s)
  {
    if Get(b, s).value != EMPTY then {s}
    else Region(b, s) + NumberBorder(b, Region(b, s))
  }

  /** The board after expandArea(field, s). */
  ghost function Expand(b: Board, s: Coords): Board
    requires Within(b, s)
  {
    Reveal(b, Revealed(b, s))
  }

  /** A cell is passable after some cells are revealed exactly when it was
      passable before and is not one of them. */
  lemma PassableAfterRevealAll(b: Board, S: set<Coords>)
    ensures forall n :: Passable(Reveal(b, S), n) <==> Passable(b, n) && n !in S
  {
  }

  /** The numbers around a union of regions are those around each. */
  lemma NumberBorderUnion(b: Board, R: set<Coords>, e: Coords)
    ensures NumberBorder(b, R + {e}) == NumberBorder(b, R) + NumberBorder(b, {e})
  {
  }

  /** The number border depends on the values only, not on the masks. */
  lemma NumberBorderOfValues(b1: Board, b2: Board, R: set<Coords>)
    requires |b1| == |b2| && forall y :: 0 <= y < |b1| ==> |b1[y]| == |b2[y]|
    requires forall c :: Within(b1, c) ==> Get(b1, c).value == Get(b2, c).value
    ensures NumberBorder(b1, R) == NumberBorder(b2, R)
  {
  }

  /** The region is closed: a passable neighbour of a region cell is in it. */
  lemma RegionClosed(b: Board, s: Coords, e: Coords, n: Coords)
    requires e in Region(b, s) && Passable(b, n) && Adjacent(n, e)
    ensures n in Region(b, s)
  {
    var p :| IsPath(b, p) && p[0] == s && p[|p| - 1] == e;
    var q := p + [n];
    assert IsPath(b, q) && q[0] == s && q[|q| - 1] == n;
  }

  /** The start of the search belongs to its region. */
  lemma RegionHasStart(b: Board, s: Coords)
    requires Within(b, s)
    ensures s in Region(b, s)
  {
    assert IsPath(b, [s]);
  }

  /** A closed set holding the start of a walk holds its end. */
  lemma {:induction false} PathStaysInClosedSet(b: Board, p: seq<Coords>, E: set<Coords>)
    requires IsPath(b, p) && p[0] in E
    requires forall e, n :: e in E && Passable(b, n) && Adjacent(n, e) ==> n in E
    ensures p[|p| - 1] in E
  {
    if |p| > 1 {
      var init := p[..|p| - 1];
      assert IsPath(b, init);
      PathStaysInClosedSet(b, init, E);
      assert Adjacent(p[|p| - 1], init[|init| - 1]);
    }
  }

  /** The region is the least closed set that holds the start. */
  lemma RegionLeast(b: Board, s: Coords, E: set<Coords>)
    requires s in E
    requires forall e, n :: e in E && Passable(b, n) && Adjacent(n, e) ==> n in E
    ensures Region(b, s) <= E
  {
    forall c | c in Region(b, s) ensures c in E {
      var p :| IsPath(b, p) && p[0] == s && p[|p| - 1] == c;
      PathStaysInClosedSet(b, p, E);
    }
  }

  /** expandArea only unmasks cells: values stay, the clicked cell is shown,
      and apart from it only EMPTY and numbered cells are shown, never a mine. */
  lemma ExpandRevealsNoMine(b: Board, s: Coords)
    requires Within(b, s)
    ensures |Expand(b, s)| == |b| && forall y :: 0 <= y < |b| ==> |Expand(b, s)[y]| == |b[y]|
    ensures Get(Expand(b, s), s) == Cell(Get(b, s).value, NO)
    ensures forall c :: Within(b, c) ==> Get(Expand(b, s), c).value == Get(b, c).value
    ensures forall c :: Within(b, c) && c != s && Get(Expand(b, s), c).mask != Get(b, c).mask ==>
              Get(b, c).value == EMPTY || IsNumber(Get(b, c).value)
  {
    if Get(b, s).value == EMPTY {
      RegionHasStart(b, s);
      forall c | c in Region(b, s) && c != s ensures Get(b, c).value == EMPTY {
        var p :| IsPath(b, p) && p[0] == s && p[|p| - 1] == c;
        assert Passable(b, p[|p| - 1]);
      }
    }
  }

  /** A walk over the expanded board is a walk over the board before. */
  lemma {:induction false} ExpandedPathIsPath(b: Board, s: Coords, p: seq<Coords>)
    requires Within(b, s) && IsPath(Expand(b, s), p)
    ensures IsPath(b, p)
  {
    ExpandRevealsNoMine(b, s);
    forall i | 1 <= i < |p| ensures Passable(b, p[i]) {
      assert Passable(Expand(b, s), p[i]);
    }
  }

  /** Expanding the same cell twice reveals nothing more. */
  lemma ExpandIdempotent(b: Board, s: Coords)
    requires Within(b, s)
    ensures Within(Expand(b, s), s)
    ensures Expand(Expand(b, s), s) == Expand(b, s)
  {
    var b2 := Expand(b, s);
    ExpandRevealsNoMine(b, s);
    if Get(b, s).value == EMPTY {
      forall c | c in Region(b2, s) ensures c in Region(b, s) {
        var p :| IsPath(b2, p) && p[0] == s && p[|p| - 1] == c;
        ExpandedPathIsPath(b, s, p);
      }
      assert NumberBorder(b2, Region(b2, s)) <= NumberBorder(b, Region(b, s));
    }
    RevealRevealed(b2, Revealed(b2, s));
  }

  // ------------------------------------------------------------- lost game

  /** One unit after the final sweep of a lost game: a flag on a safe cell
      becomes BOMB_MISTAKEN, and every unit but a flagged mine is shown. */
  function SweptCell(u: Cell): Cell {
    var v := if u.value != BOMB && u.mask == FLAG then BOMB_MISTAKEN else u.value;
    Cell(v, if v != BOMB || u.mask != FLAG then NO else u.mask)
  }

  /** The board after the mine at c goes off: c turns BOMB_EXPLODED, then
      every unit is swept. */
  function LossReveal(b: Board, c: Coords): (r: Board)
    requires Within(b, c)
    ensures |r| == |b| && forall y :: 0 <= y < |b| ==> |r[y]| == |b[y]|
    ensures forall d :: Within(b, d) ==>
              Get(r, d) == SweptCell(if d == c then Cell(BOMB_EXPLODED, Get(b, c).mask) else Get(b, d))
  {
    var exploded := b[c.y := b[c.y][c.x := Cell(BOMB_EXPLODED, b[c.y][c.x].mask)]];
    seq(|b|, y requires 0 <= y < |b| =>
      seq(|b[y]|, x requires 0 <= x < |b[y]| => SweptCell(exploded[y][x])))
  }

  /** Every unit of the board swept as in a lost game. */
  function Swept(b: Board): (r: Board)
    ensures |r| == |b| && forall y :: 0 <= y < |b| ==> |r[y]| == |b[y]|
    ensures forall d :: Within(b, d) ==> Get(r, d) == SweptCell(Get(b, d))
  {
    seq(|b|, y requires 0 <= y < |b| =>
      seq(|b[y]|, x requires 0 <= x < |b[y]| => SweptCell(b[y][x])))
  }

  /** The loss is the explosion at c followed by the sweep of every unit. */
  lemma LossRevealSweeps(b: Board, c: Coords)
    requires Within(b, c)
    ensures LossReveal(b, c) == Swept(Put(b, c, Cell(BOMB_EXPLODED, Get(b, c).mask)))
  {
    BoardsEqual(LossReveal(b, c), Swept(Put(b, c, Cell(BOMB_EXPLODED, Get(b, c).mask))));
  }

  /** After the sweep of a lost game (the clicked cell already shown): the
      clicked cell shows the explosion, flagged mines stay flagged, wrong flags
      show BOMB_MISTAKEN, and every other unit is shown with its value. */
  lemma LossRevealOutcome(b: Board, c: Coords, d: Coords)
    requires Within(b, c) && Get(b, c).mask == NO && Within(b, d)
    ensures d == c ==> Get(LossReveal(b, c), d) == Cell(BOMB_EXPLODED, NO)
    ensures d != c && Get(b, d).mask == FLAG && Get(b, d).value == BOMB ==>
              Get(LossReveal(b, c), d) == Get(b, d)
    ensures d != c && Get(b, d).mask == FLAG && Get(b, d).value != BOMB ==>
              Get(LossReveal(b, c), d) == Cell(BOMB_MISTAKEN, NO)
    ensures d != c && Get(b, d).mask != FLAG ==>
              Get(LossReveal(b, c), d) == Cell(Get(b, d).value, NO)
  {
  }

  // ------------------------------------------------------- marks and winning

  /** Cells counted by markedAtAll: flagged, or shown as a wrong flag. */
  function Marked(b: Board): (r: set<Coords>)
    ensures forall c :: c in r <==> Within(b, c) && (Get(b, c).mask == FLAG || Get(b, c).value == BOMB_MISTAKEN)
  {
    set c | c in Cells(b) && (Get(b, c).mask == FLAG || Get(b, c).value == BOMB_MISTAKEN)
  }

  /** Cells counted by markedCorrectly: flagged mines. */
  function Correct(b: Board): (r: set<Coords>)
    ensures forall c :: c in r <==> Within(b, c) && Get(b, c).mask == FLAG && Get(b, c).value == BOMB
  {
    set c | c in Cells(b) && Get(b, c).mask == FLAG && Get(b, c).value == BOMB
  }

  function FlagCells(b: Board): (r: set<Coords>)
    ensures forall c :: c in r <==> Within(b, c) && Get(b, c).mask == FLAG
  {
    set c | c in Cells(b) && Get(b, c).mask == FLAG
  }

  /** Cells holding a mine, gone off or not. */
  function MineCells(b: Board): (r: set<Coords>)
    ensures forall c :: c in r <==> Within(b, c) && (Get(b, c).value == BOMB || Get(b, c).value == BOMB_EXPLODED)
  {
    set c | c in Cells(b) && (Get(b, c).value == BOMB || Get(b, c).value == BOMB_EXPLODED)
  }

  /** The test of the field effect: markedAtAll == markedCorrectly == n. */
  predicate WinCheck(b: Board, n: int) {
    |Marked(b)| == |Correct(b)| && |Correct(b)| == n
  }

  /** On a board with n mines the game is won exactly when the marked cells
      are the mines: every mine flagged, and no flag or wrong flag elsewhere. */
  lemma WinMeansMinesMarked(b: Board, n: int)
    requires |BombCells(b)| == n
    ensures WinCheck(b, n) <==> Marked(b) == BombCells(b)
    ensures WinCheck(b, n) ==> FlagCells(b) == BombCells(b)
  {
    assert Correct(b) <= Marked(b) && Correct(b) <= BombCells(b);
    if WinCheck(b, n) {
      SubsetSameSize(Correct(b), Marked(b));
      SubsetSameSize(Correct(b), BombCells(b));
    }
    if Marked(b) == BombCells(b) {
      assert BombCells(b) <= Correct(b);
      assert Correct(b) == BombCells(b);
    }
  }

  /** The number of flags on safe cells and wrong flags, and of flagged mines,
      never makes markedCorrectly exceed markedAtAll. */
  lemma CorrectWithinMarked(b: Board)
    ensures |Correct(b)| <= |Marked(b)|
    ensures |Correct(b)| <= |BombCells(b)|
  {
    SubsetSize(Correct(b), Marked(b));
    SubsetSize(Correct(b), BombCells(b));
  }

  /** The sweep of a lost game keeps the marked cells: a flag either stays or
      turns into a wrong flag. */
  lemma LossKeepsMarks(b: Board, c: Coords)
    requires Within(b, c) && Get(b, c).mask == NO && Get(b, c).value == BOMB
    ensures Marked(LossReveal(b, c)) == Marked(b)
  {
    assert Cells(LossReveal(b, c)) == Cells(b);
  }

  /** The sweep keeps the mines in place; the clicked one has gone off. */
  lemma LossKeepsMines(b: Board, c: Coords)
    requires Within(b, c) && Get(b, c).mask == NO && Get(b, c).value == BOMB
    requires MineCells(b) == BombCells(b)
    ensures MineCells(LossReveal(b, c)) == MineCells(b)
    ensures c !in BombCells(LossReveal(b, c)) && c in MineCells(b)
    ensures BombCells(LossReveal(b, c)) <= MineCells(b)
  {
    assert Cells(LossReveal(b, c)) == Cells(b);
  }

  /** With n mines on the board, a board with a mine gone off can never pass
      the win test. */
  lemma ExplodedNeverWins(b: Board, c: Coords, n: int)
    requires |MineCells(b)| == n && c in MineCells(b) && c !in BombCells(b)
    ensures !WinCheck(b, n)
  {
    assert BombCells(b) <= MineCells(b) - {c};
    SubsetSize(BombCells(b), MineCells(b) - {c});
    CorrectWithinMarked(b);
  }

  // ------------------------------------------------------------------- flags

  /** The right-click cycle LOCKED -> FLAG -> LOCKED_QUESTION -> LOCKED; a
      shown unit stays shown. */
  function CycleMask(m: CellMask): (r: CellMask)
    ensures r == NO <==> m == NO
    ensures r == FLAG <==> m == LOCKED
  {
    match m
    case LOCKED => FLAG
    case FLAG => LOCKED_QUESTION
    case LOCKED_QUESTION => LOCKED
    case NO => NO
  }

  /** Three right clicks bring a mask back; fewer change a hidden one. */
  lemma CycleMaskPeriod(m: CellMask)
    ensures CycleMask(CycleMask(CycleMask(m))) == m
    ensures m != NO ==> CycleMask(m) != m && CycleMask(CycleMask(m)) != m
  {
  }

  /** Every cell of F gets a flag. */
  function ApplyFlags(b: Board, F: set<Coords>): (r: Board)
    ensures |r| == |b| && forall y :: 0 <= y < |b| ==> |r[y]| == |b[y]|
    ensures forall c :: Within(b, c) ==>
              Get(r, c) == if c in F then Cell(Get(b, c).value, FLAG) else Get(b, c)
  {
    seq(|b|, y requires 0 <= y < |b| =>
      seq(|b[y]|, x requires 0 <= x < |b[y]| =>
        if Coords(x, y) in F then Cell(b[y][x].value, FLAG) else b[y][x]))
  }

  /** Putting a board's own flags back changes nothing, and on a board without
      flags the flags afterwards are those put on it. */
  lemma ApplyFlagsOutcome(b: Board, F: set<Coords>)
    ensures ApplyFlags(b, FlagCells(b)) == b
    ensures FlagCells(ApplyFlags(b, F)) == FlagCells(b) + F * Cells(b)
  {
    BoardsEqual(ApplyFlags(b, FlagCells(b)), b);
    assert Cells(ApplyFlags(b, F)) == Cells(b);
  }

  /** Two boards of one shape with the same values have the same mines. */
  lemma MasksOnly(b1: Board, b2: Board)
    requires |b1| == |b2| && forall y :: 0 <= y < |b1| ==> |b1[y]| == |b2[y]|
    requires forall c :: Within(b1, c) ==> Get(b1, c).value == Get(b2, c).value
    ensures MineCells(b1) == MineCells(b2) && BombCells(b1) == BombCells(b2)
  {
  }

  /** Replacing one unit changes the marked cells at that cell only. */
  lemma MarkedAfterPut(b: Board, c: Coords, u: Cell)
    requires Within(b, c)
    ensures Marked(Put(b, c, u)) ==
              (Marked(b) - {c}) + (if u.mask == FLAG || u.value == BOMB_MISTAKEN then {c} else {})
  {
  }
}
