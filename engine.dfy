// The field routines of the playing field, on grids of mutable units, each
// proved against the board rules: counting mines around a cell, counting the
// marks, collecting the flags, generating a field and revealing an area.
module Engine {
  import opened Enums
  import opened Types
  import opened JsMath
  import opened ArrayUtils
  import opened Sets
  import opened Rules

  /** The nine offsets (dy, dx) the neighbour loops walk through. */
  function Offsets(): (r: seq<(int, int)>)
    ensures |r| == 9
  {
    Cartesian([-1, 0, 1], [-1, 0, 1])
  }

  /** The place of a neighbour (or the centre) in the order of Offsets(). */
  function Rank(n: Coords, c: Coords): int {
    3 * (n.y - c.y + 1) + (n.x - c.x + 1)
  }

  /** Offset k is (k / 3 - 1, k % 3 - 1), and the cell it names from c is the
      only cell of the 3 x 3 block around c with rank k. */
  lemma OffsetAt(k: int, c: Coords)
    requires 0 <= k < 9
    ensures Offsets()[k] == (k / 3 - 1, k % 3 - 1)
    ensures Rank(Coords(c.x + Offsets()[k].1, c.y + Offsets()[k].0), c) == k
    ensures forall n: Coords :: -1 <= n.x - c.x <= 1 && -1 <= n.y - c.y <= 1 && Rank(n, c) == k ==>
              n == Coords(c.x + Offsets()[k].1, c.y + Offsets()[k].0)
  {
    DivFacts(k, 3);
    CartesianAt([-1, 0, 1], [-1, 0, 1], k / 3, k % 3);
    forall n: Coords | -1 <= n.x - c.x <= 1 && -1 <= n.y - c.y <= 1 && Rank(n, c) == k
      ensures n == Coords(c.x + Offsets()[k].1, c.y + Offsets()[k].0)
    {
      DivUnique(k, 3, n.y - c.y + 1, n.x - c.x + 1);
    }
  }

  /** Every cell of the 3 x 3 block around c has a rank below 9. */
  lemma RankBelowNine(n: Coords, c: Coords)
    requires -1 <= n.x - c.x <= 1 && -1 <= n.y - c.y <= 1
    ensures 0 <= Rank(n, c) < 9
  {
  }

  /** The cell offset k names from c. */
  function NeighbourAt(c: Coords, k: int): Coords
    requires 0 <= k < 9
  {
    Coords(c.x + Offsets()[k].1, c.y + Offsets()[k].0)
  }

  /** The cells of S the offset loop around c meets in its first k steps. */
  function Among(S: set<Coords>, c: Coords, k: int): set<Coords> {
    set n | n in S && Rank(n, c) < k
  }

  /** Step k of the offset loop meets at most the one cell offset k names;
      after the nine steps every neighbour has been met. */
  lemma AmongStep(S: set<Coords>, c: Coords, k: int)
    requires 0 <= k < 9 && forall n :: n in S ==> Adjacent(n, c)
    ensures NeighbourAt(c, k) == c <==> Offsets()[k] == (0, 0)
    ensures NeighbourAt(c, k) != c ==> Adjacent(NeighbourAt(c, k), c)
    ensures NeighbourAt(c, k) !in Among(S, c, k)
    ensures Among(S, c, k + 1) == Among(S, c, k) + (if NeighbourAt(c, k) in S then {NeighbourAt(c, k)} else {})
  {
    OffsetAt(k, c);
  }

  lemma AmongAll(S: set<Coords>, c: Coords)
    requires forall n :: n in S ==> Adjacent(n, c)
    ensures Among(S, c, 0) == {}
    ensures Among(S, c, 9) == S
  {
    forall n | n in S ensures Rank(n, c) < 9 {
      RankBelowNine(n, c);
    }
  }

  /** Step k of countBombsAround counts the neighbour offset k names exactly
      when it is a mine on the board. */
  lemma CountStep(b: Board, c: Coords, k: int)
    requires 0 <= k < 9
    ensures var n := NeighbourAt(c, k);
            |Among(BombNeighbours(b, c), c, k + 1)| == |Among(BombNeighbours(b, c), c, k)| +
              (if Offsets()[k] != (0, 0) && Within(b, n) && Get(b, n).value == BOMB then 1 else 0)
  {
    AmongStep(BombNeighbours(b, c), c, k);
  }

  /** `countBombsAround(coords, field)`: the number of mines among the
      neighbours of coords that lie on the field. */
  method CountBombsAround(coords: Coords, field: Grid, ghost w: nat, ghost h: nat) returns (result: int)
    requires Shaped(field, w, h)
    ensures result == BombsAround(View(field), coords)
  {
    ghost var b := View(field);
    ghost var mines := BombNeighbours(b, coords);
    var offsets := Offsets();
    AmongAll(mines, coords);
    result := 0;
    for k := 0 to |offsets|
      invariant result == |Among(mines, coords, k)|
      invariant View(field) == b
    {
      CountStep(b, coords, k);
      var (i, j) := offsets[k];
      var x2, y2 := coords.x + j, coords.y + i;
      if !(i == 0 && j == 0) && 0 <= y2 < |field| && 0 <= x2 < |field[y2]| {
        if field[y2][x2].cellValue == BOMB {
          result := result + 1;
        }
      }
    }
  }

  /** `expandNearbyNumbers(coords, field)`: shows every numbered neighbour of
      coords. */
  method ExpandNearbyNumbers(coords: Coords, field: Grid, ghost w: nat, ghost h: nat)
    requires Shaped(field, w, h)
    modifies Units(field)
    ensures View(field) == Reveal(old(View(field)), NumberBorder(old(View(field)), {coords}))
  {
    ghost var b := View(field);
    ghost var border := NumberBorder(b, {coords});
    var offsets := Offsets();
    AmongAll(border, coords);
    RevealRevealed(b, {});
    for k := 0 to |offsets|
      invariant View(field) == Reveal(b, Among(border, coords, k))
    {
      AmongStep(border, coords, k);
      ghost var seen := Among(border, coords, k);
      var (i, j) := offsets[k];
      var x2, y2 := coords.x + j, coords.y + i;
      ghost var n := NeighbourAt(coords, k);
      assert n == Coords(x2, y2);
      if !(i == 0 && j == 0) && 0 <= y2 < |field| && 0 <= x2 < |field[y2]| {
        var currentUnit := field[y2][x2];
        assert currentUnit.cellValue == Get(b, n).value;
        if ONE <= currentUnit.cellValue <= EIGHT {
          assert Among(border, coords, k + 1) == seen + {n};
          RevealOneMore(b, seen, n);
          SetMask(field, Coords(x2, y2), NO, w, h);
        } else {
          assert Among(border, coords, k + 1) == seen;
        }
      } else {
        assert Among(border, coords, k + 1) == seen;
      }
    }
  }

  /** What the neighbour loop of expandArea keeps after k offsets: the
      queue it started from is a prefix, and what it added are distinct
      passable neighbours of c not queued before, among them every passable
      neighbour met so far. */
  ghost predicate EnqueueInv(b: Board, c: Coords, queue: seq<Coords>, newQueue: seq<Coords>, k: int) {
    && |newQueue| >= |queue| && newQueue[..|queue|] == queue
    && (forall i :: |queue| <= i < |newQueue| ==>
          Passable(b, newQueue[i]) && Adjacent(newQueue[i], c) && newQueue[i] !in queue)
    && (forall i, j :: |queue| <= i < j < |newQueue| ==> newQueue[i] != newQueue[j])
    && (forall n :: Passable(b, n) && Adjacent(n, c) && Rank(n, c) < k ==> n in newQueue)
  }

  /** Offset k adds its cell when that cell is passable and not queued yet. */
  lemma EnqueueStep(b: Board, c: Coords, queue: seq<Coords>, newQueue: seq<Coords>, k: int)
    requires 0 <= k < 9 && !Passable(b, c) && EnqueueInv(b, c, queue, newQueue, k)
    ensures var n := NeighbourAt(c, k);
            EnqueueInv(b, c, queue, if Passable(b, n) && n !in newQueue then newQueue + [n] else newQueue, k + 1)
  {
    OffsetAt(k, c);
    AmongStep({}, c, k);
    var n := NeighbourAt(c, k);
    if Passable(b, n) && n !in newQueue {
      assert (newQueue + [n])[..|queue|] == queue;
    }
  }

  /** The neighbour loop of expandArea: every neighbour of coords that is
      EMPTY, still hidden and not queued yet joins the end of the queue. */
  method EnqueueNeighbours(field: Grid, coords: Coords, queue: seq<Coords>, ghost w: nat, ghost h: nat)
    returns (newQueue: seq<Coords>)
    requires Shaped(field, w, h) && !Passable(View(field), coords)
    ensures |newQueue| >= |queue| && newQueue[..|queue|] == queue
    ensures forall i :: |queue| <= i < |newQueue| ==>
              Passable(View(field), newQueue[i]) && Adjacent(newQueue[i], coords) && newQueue[i] !in queue
    ensures forall i, j :: |queue| <= i < j < |newQueue| ==> newQueue[i] != newQueue[j]
    ensures forall n :: Passable(View(field), n) && Adjacent(n, coords) ==> n in newQueue
  {
    ghost var b := View(field);
    var offsets := Offsets();
    newQueue := queue;
    for k := 0 to |offsets|
      invariant View(field) == b
      invariant EnqueueInv(b, coords, queue, newQueue, k)
    {
      EnqueueStep(b, coords, queue, newQueue, k);
      var (i, j) := offsets[k];
      var x2, y2 := coords.x + j, coords.y + i;
      if 0 <= y2 < |field| && 0 <= x2 < |field[y2]| {
        var currentUnit := field[y2][x2];
        if currentUnit.cellValue == EMPTY && currentUnit.cellMask != NO && Coords(x2, y2) !in newQueue {
          newQueue := newQueue + [currentUnit.coords];
        }
      }
    }
    forall n | Passable(b, n) && Adjacent(n, coords) ensures n in newQueue {
      RankBelowNine(n, coords);
    }
  }

  /** What the search loop keeps: queued and visited cells lie in the region
      and are disjoint, neither list repeats a cell, the start is queued or
      visited, and every passable neighbour of a visited cell is queued or
      visited. */
  ghost predicate SearchInv(b0: Board, start: Coords, queue: seq<Coords>, expanded: seq<Coords>) {
    && (forall q :: q in queue ==> q in Region(b0, start))
    && (forall e :: e in expanded ==> e in Region(b0, start))
    && (start in queue || start in expanded)
    && (forall i, j :: 0 <= i < j < |queue| ==> queue[i] != queue[j])
    && (forall i, j :: 0 <= i < j < |expanded| ==> expanded[i] != expanded[j])
    && (forall q :: q in queue ==> q !in expanded)
    && (forall e, n :: e in expanded && Passable(b0, n) && Adjacent(n, e) ==> n in queue || n in expanded)
  }

  /** One round of the search loop keeps SearchInv: the head of the queue is
      visited and its passable unseen neighbours are queued. */
  lemma SearchStep(b0: Board, start: Coords, queue: seq<Coords>, expanded: seq<Coords>, newQueue: seq<Coords>)
    requires SearchInv(b0, start, queue, expanded) && |queue| > 0
    requires |newQueue| >= |queue| - 1 && newQueue[..|queue| - 1] == queue[1..]
    requires forall i :: |queue| - 1 <= i < |newQueue| ==>
               && Passable(b0, newQueue[i]) && newQueue[i] !in {start} + Elems(expanded + [queue[0]])
               && Adjacent(newQueue[i], queue[0]) && newQueue[i] !in queue[1..]
    requires forall i, j :: |queue| - 1 <= i < j < |newQueue| ==> newQueue[i] != newQueue[j]
    requires forall n :: Passable(b0, n) && n !in {start} + Elems(expanded + [queue[0]]) && Adjacent(n, queue[0]) ==>
               n in newQueue
    ensures queue[0] in Cells(b0) - Elems(expanded)
    ensures SearchInv(b0, start, newQueue, expanded + [queue[0]])
  {
    var coords := queue[0];
    var rest := queue[1..];
    var expanded2 := expanded + [coords];
    forall i | |rest| <= i < |newQueue| ensures newQueue[i] in Region(b0, start) {
      RegionClosed(b0, start, coords, newQueue[i]);
    }
    assert forall q :: q in rest ==> q in newQueue[..|rest|];
    forall q | q in newQueue ensures q in Region(b0, start) && q !in expanded2 {
      var i :| 0 <= i < |newQueue| && newQueue[i] == q;
      if i < |rest| {
        assert q == rest[i];
      }
    }
    forall i, j | 0 <= i < j < |newQueue| ensures newQueue[i] != newQueue[j] {
      if j < |rest| {
        assert newQueue[i] == queue[i + 1] && newQueue[j] == queue[j + 1];
      } else if i < |rest| {
        assert newQueue[i] in rest;
      }
    }
    forall e, n | e in expanded2 && Passable(b0, n) && Adjacent(n, e) ensures n in newQueue || n in expanded2 {
      if n in queue && n != coords {
        assert n in rest;
      }
    }
  }

  /** When the queue runs empty the visited cells are the whole region. */
  lemma SearchDone(b0: Board, start: Coords, expanded: seq<Coords>)
    requires SearchInv(b0, start, [], expanded)
    ensures Elems(expanded) == Region(b0, start)
    ensures {start} + Elems(expanded) == Region(b0, start)
  {
    RegionLeast(b0, start, Elems(expanded));
  }

  /** One round of the search loop: the head of the queue is taken off,
      visited and shown, and its passable unseen neighbours are queued. */
  method VisitNext(field: Grid, startCoords: Coords, queue: seq<Coords>, expanded: seq<Coords>,
                   ghost w: nat, ghost h: nat, ghost b0: Board)
    returns (queue2: seq<Coords>, expanded2: seq<Coords>)
    requires Shaped(field, w, h) && |queue| > 0
    requires View(field) == Reveal(b0, {startCoords} + Elems(expanded))
    requires SearchInv(b0, startCoords, queue, expanded)
    modifies Units(field)
    ensures expanded2 == expanded + [queue[0]]
    ensures queue[0] in Cells(b0) - Elems(expanded)
    ensures View(field) == Reveal(b0, {startCoords} + Elems(expanded2))
    ensures SearchInv(b0, startCoords, queue2, expanded2)
  {
    var coords := queue[0];
    ghost var seen := {startCoords} + Elems(expanded);
    ghost var seen2 := {startCoords} + Elems(expanded + [coords]);
    assert seen2 == seen + {coords};
    assert coords in Cells(b0) - Elems(expanded);
    RevealOneMore(b0, seen, coords);
    PassableAfterRevealAll(b0, seen2);
    assert field[coords.y][coords.x].cellValue == Get(b0, coords).value;
    queue2 := queue[1..];
    expanded2 := expanded + [coords];
    SetMask(field, coords, NO, w, h);
    assert View(field) == Reveal(b0, seen2);
    queue2 := EnqueueNeighbours(field, coords, queue2, w, h);
    assert View(field) == Reveal(b0, {startCoords} + Elems(expanded2));
    SearchStep(b0, startCoords, queue, expanded, queue2);
  }

  /** The search loop of expandArea from an EMPTY start whose mask is
      already cleared: it shows the region of the search and returns its
      cells in visiting order. */
  method SearchRegion(field: Grid, startCoords: Coords, ghost w: nat, ghost h: nat, ghost b0: Board)
    returns (expanded: seq<Coords>)
    requires Shaped(field, w, h) && Within(b0, startCoords)
    requires View(field) == Reveal(b0, {startCoords})
    modifies Units(field)
    ensures Elems(expanded) == Region(b0, startCoords)
    ensures forall i, j :: 0 <= i < j < |expanded| ==> expanded[i] != expanded[j]
    ensures View(field) == Reveal(b0, Region(b0, startCoords))
  {
    var queue: seq<Coords> := [startCoords];
    expanded := [];
    assert {startCoords} + Elems(expanded) == {startCoords};
    assert SearchInv(b0, startCoords, queue, expanded) by {
      RegionHasStart(b0, startCoords);
    }
    while |queue| > 0
      invariant View(field) == Reveal(b0, {startCoords} + Elems(expanded))
      invariant SearchInv(b0, startCoords, queue, expanded)
      decreases Cells(b0) - Elems(expanded)
    {
      queue, expanded := VisitNext(field, startCoords, queue, expanded, w, h, b0);
    }
    SearchDone(b0, startCoords, expanded);
  }

  /** The last loop of expandArea: the numbers around every visited cell
      are shown. */
  method ExpandNumbersAround(field: Grid, expanded: seq<Coords>, ghost w: nat, ghost h: nat,
                             ghost b0: Board, ghost shownBefore: set<Coords>)
    requires Shaped(field, w, h) && View(field) == Reveal(b0, shownBefore)
    modifies Units(field)
    ensures View(field) == Reveal(b0, shownBefore + NumberBorder(b0, Elems(expanded)))
  {
    assert Elems(expanded[..0]) == {};
    assert shownBefore + NumberBorder(b0, {}) == shownBefore;
    for k := 0 to |expanded|
      invariant View(field) == Reveal(b0, shownBefore + NumberBorder(b0, Elems(expanded[..k])))
    {
      var e := expanded[k];
      ghost var visited := Elems(expanded[..k]);
      assert expanded[..k + 1] == expanded[..k] + [e];
      assert Elems(expanded[..k + 1]) == visited + {e};
      NumberBorderUnion(b0, visited, e);
      ghost var shown := shownBefore + NumberBorder(b0, visited);
      assert shown + NumberBorder(b0, {e}) == shownBefore + NumberBorder(b0, Elems(expanded[..k + 1]));
      ExpandNearbyNumbers(e, field, w, h);
      NumberBorderOfValues(Reveal(b0, shown), b0, {e});
      RevealTwice(b0, shown, NumberBorder(b0, {e}));
    }
    assert expanded[..|expanded|] == expanded;
  }

  /** `expandArea(field, startCoords)`: shows the clicked cell; from an EMPTY
      one, a breadth-first search shows every EMPTY hidden cell it can reach
      through such cells, then the numbers around them. */
  method ExpandArea(field: Grid, startCoords: Coords, ghost w: nat, ghost h: nat)
    requires Shaped(field, w, h) && InBounds(startCoords, w, h)
    modifies Units(field)
    ensures Within(old(View(field)), startCoords)
    ensures View(field) == Expand(old(View(field)), startCoords)
  {
    ghost var b0 := View(field);
    RevealRevealed(b0, {});
    RevealOneMore(b0, {}, startCoords);
    assert {} + {startCoords} == {startCoords};
    SetMask(field, startCoords, NO, w, h);
    assert View(field) == Reveal(b0, {startCoords});
    assert field[startCoords.y][startCoords.x].cellValue == Get(b0, startCoords).value;
    if field[startCoords.y][startCoords.x].cellValue != EMPTY {
      return;
    }
    var expanded := SearchRegion(field, startCoords, w, h, b0);
    ExpandNumbersAround(field, expanded, w, h, b0, Region(b0, startCoords));
  }

  // ------------------------------------------------------ row-major sweeps

  /** The double loop over rows i and columns j has passed c before (j, i). */
  predicate Before(c: Coords, i: int, j: int) {
    c.y < i || (c.y == i && c.x < j)
  }

  /** The cells of S the sweep has passed before (j, i). */
  function Prefix(S: set<Coords>, i: int, j: int): set<Coords> {
    set c | c in S && Before(c, i, j)
  }

  lemma PrefixStep(S: set<Coords>, i: int, j: int)
    ensures Coords(j, i) !in Prefix(S, i, j)
    ensures Prefix(S, i, j + 1) == Prefix(S, i, j) + (if Coords(j, i) in S then {Coords(j, i)} else {})
  {
  }

  /** At the end of a row of width w the sweep moves to the next row. */
  lemma PrefixRow(S: set<Coords>, i: int, w: int)
    requires forall c :: c in S ==> 0 <= c.x < w
    ensures Prefix(S, i, w) == Prefix(S, i + 1, 0)
  {
  }

  /** Before row 0 nothing is passed; after row h - 1 everything is. */
  lemma PrefixEnds(S: set<Coords>, h: int)
    requires forall c :: c in S ==> 0 <= c.x && 0 <= c.y < h
    ensures Prefix(S, 0, 0) == {} && Prefix(S, h, 0) == S
  {
    assert forall c :: c in S ==> c in Prefix(S, h, 0);
  }

  /** One cell of the sweep over the marked and the correctly marked cells. */
  lemma MarkedStep(b: Board, w: nat, i: nat, j: nat)
    requires IsRect(b, w, |b|) && i < |b| && j < w
    ensures |Prefix(Marked(b), i, j + 1)| == |Prefix(Marked(b), i, j)|
      + (if b[i][j].mask == FLAG || b[i][j].value == BOMB_MISTAKEN then 1 else 0)
    ensures |Prefix(Correct(b), i, j + 1)| == |Prefix(Correct(b), i, j)|
      + (if b[i][j].mask == FLAG && b[i][j].value == BOMB then 1 else 0)
  {
    PrefixStep(Marked(b), i, j);
    PrefixStep(Correct(b), i, j);
    assert Get(b, Coords(j, i)) == b[i][j];
  }

  /** `countMarkedBombs(field)`: markedAtAll counts the flags and wrong
      flags, markedCorrectly the flagged mines. */
  method CountMarkedBombs(field: Grid, w: nat, h: nat) returns (markedAtAll: int, markedCorrectly: int)
    requires Shaped(field, w, h)
    ensures markedAtAll == |Marked(View(field))|
    ensures markedCorrectly == |Correct(View(field))|
  {
    ghost var b := View(field);
    PrefixEnds(Marked(b), h);
    PrefixEnds(Correct(b), h);
    markedAtAll := 0;
    markedCorrectly := 0;
    for i := 0 to h
      invariant View(field) == b
      invariant markedAtAll == |Prefix(Marked(b), i, 0)|
      invariant markedCorrectly == |Prefix(Correct(b), i, 0)|
    {
      for j := 0 to w
        invariant View(field) == b
        invariant markedAtAll == |Prefix(Marked(b), i, j)|
        invariant markedCorrectly == |Prefix(Correct(b), i, j)|
      {
        MarkedStep(b, w, i, j);
        var mask := field[i][j].cellMask;
        var value := field[i][j].cellValue;
        assert b[i][j] == Cell(value, mask);
        if mask == FLAG || value == BOMB_MISTAKEN {
          markedAtAll := markedAtAll + 1;
        }
        if mask == FLAG && value == BOMB {
          markedCorrectly := markedCorrectly + 1;
        }
      }
      PrefixRow(Marked(b), i, w);
      PrefixRow(Correct(b), i, w);
    }
  }

  /** c comes before d in row-major order. */
  predicate RowMajorLess(c: Coords, d: Coords) {
    Before(c, d.y, d.x)
  }

  /** `getFlagsCoords(field)`: the flagged cells, each once, in row-major
      order. */
  method GetFlagsCoords(field: Grid, w: nat, h: nat) returns (coords: seq<Coords>)
    requires Shaped(field, w, h)
    ensures Elems(coords) == FlagCells(View(field))
    ensures forall a, c :: 0 <= a < c < |coords| ==> RowMajorLess(coords[a], coords[c])
  {
    ghost var b := View(field);
    PrefixEnds(FlagCells(b), h);
    coords := [];
    for i := 0 to h
      invariant View(field) == b
      invariant Elems(coords) == Prefix(FlagCells(b), i, 0)
      invariant forall a, c :: 0 <= a < c < |coords| ==> RowMajorLess(coords[a], coords[c])
    {
      for j := 0 to w
        invariant View(field) == b
        invariant Elems(coords) == Prefix(FlagCells(b), i, j)
        invariant forall a, c :: 0 <= a < c < |coords| ==> RowMajorLess(coords[a], coords[c])
      {
        PrefixStep(FlagCells(b), i, j);
        assert Get(b, Coords(j, i)).mask == field[i][j].cellMask;
        if field[i][j].cellMask == FLAG {
          assert forall a :: 0 <= a < |coords| ==> coords[a] in Prefix(FlagCells(b), i, j);
          coords := coords + [field[i][j].coords];
        }
      }
      PrefixRow(FlagCells(b), i, w);
    }
  }

  // ------------------------------------------------------------ generation

  /** A row-major sweep that turns board b into board a, stopped before
      (j, i): the cells passed come from a, the others still from b. */
  function Partly(b: Board, a: Board, i: int, j: int): Board
    requires |a| == |b| && forall y :: 0 <= y < |b| ==> |a[y]| == |b[y]|
  {
    seq(|b|, y requires 0 <= y < |b| =>
      seq(|b[y]|, x requires 0 <= x < |b[y]| =>
        if Before(Coords(x, y), i, j) then a[y][x] else b[y][x]))
  }

  /** What the stopped sweep holds, cell by cell. */
  lemma PartlyAt(b: Board, a: Board, i: int, j: int)
    requires |a| == |b| && forall y :: 0 <= y < |b| ==> |a[y]| == |b[y]|
    ensures var r := Partly(b, a, i, j);
            && |r| == |b| && (forall y :: 0 <= y < |b| ==> |r[y]| == |b[y]|)
            && forall c :: Within(b, c) ==> Get(r, c) == if Before(c, i, j) then Get(a, c) else Get(b, c)
  {
  }

  /** The sweep starts on b and ends on a. */
  lemma PartlyEnds(b: Board, a: Board)
    requires |a| == |b| && forall y :: 0 <= y < |b| ==> |a[y]| == |b[y]|
    ensures Partly(b, a, 0, 0) == b
    ensures Partly(b, a, |b|, 0) == a
  {
    PartlyAt(b, a, 0, 0);
    PartlyAt(b, a, |b|, 0);
    BoardsEqual(Partly(b, a, 0, 0), b);
    BoardsEqual(Partly(b, a, |b|, 0), a);
  }

  lemma PartlyRow(b: Board, a: Board, w: nat, i: int)
    requires IsRect(b, w, |b|) && IsRect(a, w, |b|)
    ensures Partly(b, a, i, w) == Partly(b, a, i + 1, 0)
  {
    PartlyAt(b, a, i, w);
    PartlyAt(b, a, i + 1, 0);
    BoardsEqual(Partly(b, a, i, w), Partly(b, a, i + 1, 0));
  }

  /** One cell of the sweep: the cell at (j, i) still holds its old content
      and takes its new one. */
  lemma PartlyStep(b: Board, a: Board, w: nat, i: nat, j: nat)
    requires IsRect(b, w, |b|) && IsRect(a, w, |b|) && i < |b| && j < w
    ensures Get(Partly(b, a, i, j), Coords(j, i)) == Get(b, Coords(j, i))
    ensures Partly(b, a, i, j + 1) == Put(Partly(b, a, i, j), Coords(j, i), Get(a, Coords(j, i)))
  {
    PartlyAt(b, a, i, j);
    PartlyAt(b, a, i, j + 1);
    BoardsEqual(Partly(b, a, i, j + 1), Put(Partly(b, a, i, j), Coords(j, i), Get(a, Coords(j, i))));
  }

  /** Numbering the layout L, stopped before (j, i). */
  function PartlyNumbered(L: Board, i: int, j: int): Board {
    Partly(L, Numbered(L), i, j)
  }

  /** The sweep skips a cell that is not EMPTY. */
  lemma PartlyNumberedSkip(L: Board, w: nat, i: nat, j: nat)
    requires IsRect(L, w, |L|) && i < |L| && j < w
    requires L[i][j].value != EMPTY
    ensures PartlyNumbered(L, i, j + 1) == PartlyNumbered(L, i, j)
  {
    PartlyAt(L, Numbered(L), i, j);
    PartlyAt(L, Numbered(L), i, j + 1);
    assert Get(Numbered(L), Coords(j, i)) == Get(L, Coords(j, i));
    BoardsEqual(PartlyNumbered(L, i, j + 1), PartlyNumbered(L, i, j));
  }

  /** Numbering never adds or removes a mine, so the counts stay those of L. */
  lemma PartlyNumberedCounts(L: Board, i: int, j: int, c: Coords)
    ensures BombsAround(PartlyNumbered(L, i, j), c) == BombsAround(L, c)
  {
    var P := PartlyNumbered(L, i, j);
    PartlyAt(L, Numbered(L), i, j);
    assert Cells(P) == Cells(L);
    SameMinesSameCounts(P, L, c);
  }

  /** The first step of generateField: a w-by-h grid of fresh units, each
      EMPTY and LOCKED and carrying its own coordinates. */
  method NewField(w: nat, h: nat) returns (newField: Grid)
    ensures Shaped(newField, w, h)
    ensures forall y, x :: 0 <= y < h && 0 <= x < w ==> fresh(newField[y][x])
    ensures View(newField) == Layout(w, h, {})
  {
    newField := [];
    for i := 0 to h
      invariant |newField| == i
      invariant forall y :: 0 <= y < i ==> |newField[y]| == w
      invariant forall y, x :: 0 <= y < i && 0 <= x < w ==>
                  && newField[y][x].coords == Coords(x, y) && fresh(newField[y][x])
                  && newField[y][x].cellValue == EMPTY && newField[y][x].cellMask == LOCKED
    {
      var row: seq<GridUnit> := [];
      for j := 0 to w
        invariant |row| == j
        invariant forall x :: 0 <= x < j ==>
                    && row[x].coords == Coords(x, i) && fresh(row[x])
                    && row[x].cellValue == EMPTY && row[x].cellMask == LOCKED
        invariant forall y, x :: 0 <= y < i && 0 <= x < w ==>
                    newField[y][x].cellValue == EMPTY && newField[y][x].cellMask == LOCKED
      {
        var unit := new GridUnit(Coords(j, i), EMPTY, LOCKED);
        row := row + [unit];
      }
      newField := newField + [row];
    }
    BoardsEqual(View(newField), Layout(w, h, {}));
  }

  /** The second step: a mine on the cell of every index. */
  method PlaceBombs(newField: Grid, w: nat, h: nat, bombIndexes: seq<int>)
    requires w > 0 && h > 0 && Shaped(newField, w, h)
    requires forall k :: 0 <= k < |bombIndexes| ==> bombIndexes[k] >= 0
    requires View(newField) == Layout(w, h, {})
    modifies Units(newField)
    ensures View(newField) == Layout(w, h, BombSet(bombIndexes, w, h))
  {
    assert BombSet(bombIndexes[..0], w, h) == {};
    for k := 0 to |bombIndexes|
      invariant View(newField) == Layout(w, h, BombSet(bombIndexes[..k], w, h))
    {
      var c := CoordsByIndex(bombIndexes[k], w, h);
      PlaceBombStep(w, h, bombIndexes, k);
      SetValue(newField, c, BOMB, w, h);
    }
    assert bombIndexes[..|bombIndexes|] == bombIndexes;
  }

  /** Placing the k-th mine on the layout of the first k. */
  lemma PlaceBombStep(w: nat, h: nat, bombIndexes: seq<int>, k: nat)
    requires w > 0 && h > 0 && k < |bombIndexes| && bombIndexes[k] >= 0
    ensures InBounds(CoordsByIndex(bombIndexes[k], w, h), w, h)
    ensures Put(Layout(w, h, BombSet(bombIndexes[..k], w, h)), CoordsByIndex(bombIndexes[k], w, h), Cell(BOMB, LOCKED))
         == Layout(w, h, BombSet(bombIndexes[..k + 1], w, h))
  {
    var c := CoordsByIndex(bombIndexes[k], w, h);
    CoordsByIndexInBounds(bombIndexes[k], w, h);
    assert bombIndexes[..k + 1] == bombIndexes[..k] + [bombIndexes[k]];
    BombSetSnoc(bombIndexes[..k], bombIndexes[k], w, h);
    BoardsEqual(Put(Layout(w, h, BombSet(bombIndexes[..k], w, h)), c, Cell(BOMB, LOCKED)),
                Layout(w, h, BombSet(bombIndexes[..k + 1], w, h)));
  }

  /** The third step: the row-major sweep that adds to every EMPTY cell the
      number of mines around it. */
  method NumberField(newField: Grid, w: nat, h: nat)
    requires Shaped(newField, w, h)
    modifies Units(newField)
    ensures View(newField) == Numbered(old(View(newField)))
  {
    ghost var L := View(newField);
    PartlyEnds(L, Numbered(L));
    for i := 0 to h
      invariant View(newField) == PartlyNumbered(L, i, 0)
    {
      for j := 0 to w
        invariant View(newField) == PartlyNumbered(L, i, j)
      {
        NumberCellStep(L, w, i, j);
        NumberCell(newField, w, h, i, j);
      }
      PartlyRow(L, Numbered(L), w, i);
    }
  }

  /** One cell of the numbering sweep on values: an EMPTY cell takes the
      count of its neighbouring mines, any other cell is left as it is. */
  ghost function NumberedCell(b: Board, c: Coords): Board
    requires Within(b, c)
  {
    var cell := Get(b, c);
    if cell.value == EMPTY then Put(b, c, Cell(EMPTY + BombsAround(b, c), cell.mask)) else b
  }

  /** Handling the cell at (j, i) moves the row-major sweep one cell on. */
  lemma NumberCellStep(L: Board, w: nat, i: nat, j: nat)
    requires IsRect(L, w, |L|) && i < |L| && j < w
    ensures Within(PartlyNumbered(L, i, j), Coords(j, i))
    ensures NumberedCell(PartlyNumbered(L, i, j), Coords(j, i)) == PartlyNumbered(L, i, j + 1)
  {
    var c := Coords(j, i);
    PartlyAt(L, Numbered(L), i, j);
    PartlyStep(L, Numbered(L), w, i, j);
    if L[i][j].value == EMPTY {
      PartlyNumberedCounts(L, i, j, c);
    } else {
      PartlyNumberedSkip(L, w, i, j);
    }
  }

  /** One cell of the numbering sweep on the grid. */
  method NumberCell(newField: Grid, w: nat, h: nat, i: nat, j: nat)
    requires Shaped(newField, w, h) && i < h && j < w
    modifies newField[i][j]
    ensures View(newField) == NumberedCell(old(View(newField)), Coords(j, i))
  {
    ghost var P := View(newField);
    assert Get(P, Coords(j, i)) == Cell(newField[i][j].cellValue, newField[i][j].cellMask);
    var value := newField[i][j].cellValue;
    if value == EMPTY {
      var count := CountBombsAround(Coords(j, i), newField, w, h);
      assert unchanged(Units(newField));
      assert View(newField) == P;
      SetValue(newField, Coords(j, i), value + count, w, h);
      assert View(newField) == Put(P, Coords(j, i), Cell(EMPTY + BombsAround(P, Coords(j, i)), Get(P, Coords(j, i)).mask));
    }
  }

  /** `generateField()` with the indexes randomNumbers drew passed in: a
      w-by-h grid of fresh LOCKED units, mines on the drawn cells, and every
      other cell numbered by its neighbouring mines. */
  method GenerateField(w: nat, h: nat, bombIndexes: seq<int>) returns (newField: Grid)
    requires w > 0 && h > 0
    requires forall k :: 0 <= k < |bombIndexes| ==> bombIndexes[k] >= 0
    ensures Shaped(newField, w, h)
    ensures forall u :: u in Units(newField) ==> fresh(u)
    ensures View(newField) == Generated(w, h, bombIndexes)
  {
    newField := NewField(w, h);
    PlaceBombs(newField, w, h, bombIndexes);
    NumberField(newField, w, h);
  }

  // ------------------------------------------------------------------ loss

  /** One unit of the sweep of a lost game: a flag on anything but a mine
      becomes BOMB_MISTAKEN, then every unit but a flagged mine is shown. */
  method SweepUnit(field: Grid, c: Coords, ghost w: nat, ghost h: nat)
    requires Shaped(field, w, h) && InBounds(c, w, h)
    modifies field[c.y][c.x]
    ensures View(field) == Put(old(View(field)), c, SweptCell(Get(old(View(field)), c)))
  {
    ghost var b := View(field);
    var unit := field[c.y][c.x];
    if unit.cellValue != BOMB && unit.cellMask == FLAG {
      SetValue(field, c, BOMB_MISTAKEN, w, h);
    }
    if unit.cellValue != BOMB || unit.cellMask != FLAG {
      SetMask(field, c, NO, w, h);
    }
    BoardsEqual(View(field), Put(b, c, SweptCell(Get(b, c))));
  }

  /** `newField.forEach(row => row.map(unit => ...))` after a mine went off:
      every unit swept in row-major order. */
  method LossSweep(field: Grid, w: nat, h: nat)
    requires Shaped(field, w, h)
    modifies Units(field)
    ensures View(field) == Swept(old(View(field)))
  {
    ghost var b := View(field);
    PartlyEnds(b, Swept(b));
    for i := 0 to h
      invariant View(field) == Partly(b, Swept(b), i, 0)
    {
      for j := 0 to w
        invariant View(field) == Partly(b, Swept(b), i, j)
      {
        PartlyStep(b, Swept(b), w, i, j);
        SweepUnit(field, Coords(j, i), w, h);
      }
      PartlyRow(b, Swept(b), w, i);
    }
  }
}
