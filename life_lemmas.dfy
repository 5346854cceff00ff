/**
  Properties of the pure model: how many neighbours a cell can have on a
  bounded grid, that a next state depends only on the current grid around
  the cell, the classic still life and oscillator, and the toggle and
  random-draw laws.
 */
module LifeProperties {
  import opened Life

  /** How many of the columns (or rows) x - 1, x, x + 1 lie in [0, n). */
  function Span(x: int, n: nat): (r: nat)
    requires 0 <= x < n
    ensures 1 <= r <= 3
    ensures r == 3 <==> 0 < x < n - 1
  {
    (if 0 < x then 1 else 0) + 1 + (if x + 1 < n then 1 else 0)
  }

  /** The number of in-grid cells adjacent to (x, y). */
  function Candidates(w: nat, h: nat, x: nat, y: nat): (r: nat)
    requires InGrid(w, h, x, y)
    ensures r <= 8
  {
    Span(x, w) * Span(y, h) - 1
  }

  predicate IsCorner(w: nat, h: nat, x: nat, y: nat)
  {
    (x == 0 || x == w - 1) && (y == 0 || y == h - 1)
  }

  predicate OnEdge(w: nat, h: nat, x: nat, y: nat)
  {
    x == 0 || x == w - 1 || y == 0 || y == h - 1
  }

  /** The count is the sum of the eight offset contributions. */
  lemma CountUnfold(g: seq<seq<CellState>>, w: nat, h: nat, x: int, y: int)
    requires IsGrid(g, w, h)
    ensures NeighbourCount(g, w, h, x, y) ==
      LiveAt(g, w, h, x - 1, y - 1) + LiveAt(g, w, h, x, y - 1) + LiveAt(g, w, h, x + 1, y - 1) +
      LiveAt(g, w, h, x - 1, y) + LiveAt(g, w, h, x + 1, y) +
      LiveAt(g, w, h, x - 1, y + 1) + LiveAt(g, w, h, x, y + 1) + LiveAt(g, w, h, x + 1, y + 1)
  {
  }

  /** A row of offsets that lies outside the grid contributes no neighbours. */
  lemma {:induction false} OutsideRow(g: seq<seq<CellState>>, w: nat, h: nat, x: int, y: int, dy: int, hi: int)
    requires IsGrid(g, w, h) && -1 <= hi <= 2
    requires y + dy < 0 || h <= y + dy
    ensures RowCount(g, w, h, x, y, dy, hi) == 0
    decreases hi + 1
  {
    if hi > -1 {
      OutsideRow(g, w, h, x, y, dy, hi - 1);
    }
  }

  /** The in-grid neighbours of (x, y) counted row by row: the row above
      and the row below each hold Span(x, w) of them when they exist, the
      cell's own row one fewer. */
  lemma CandidatesByRow(w: nat, h: nat, x: nat, y: nat)
    requires InGrid(w, h, x, y)
    ensures Candidates(w, h, x, y) ==
      (if 0 < y then Span(x, w) else 0) + (Span(x, w) - 1) + (if y + 1 < h then Span(x, w) else 0)
  {
    var sx := Span(x, w);
    assert Span(y, h) * sx == (if 0 < y then sx else 0) + sx + (if y + 1 < h then sx else 0);
  }

  /** The count never exceeds the number of in-grid neighbours. */
  lemma CountWithinCandidates(g: seq<seq<CellState>>, w: nat, h: nat, x: nat, y: nat)
    requires IsGrid(g, w, h) && InGrid(w, h, x, y)
    ensures NeighbourCount(g, w, h, x, y) <= Candidates(w, h, x, y)
  {
    CountUnfold(g, w, h, x, y);
    CandidatesByRow(w, h, x, y);
  }

  /** Never more live neighbours than in-grid neighbours: at most 8, at
      most 3 at a corner, at most 5 on an edge. Off-grid positions never
      count, so nothing wraps around. */
  lemma CountBounds(g: seq<seq<CellState>>, w: nat, h: nat, x: nat, y: nat)
    requires IsGrid(g, w, h) && InGrid(w, h, x, y)
    ensures NeighbourCount(g, w, h, x, y) <= Candidates(w, h, x, y) <= 8
    ensures IsCorner(w, h, x, y) ==> NeighbourCount(g, w, h, x, y) <= 3
    ensures OnEdge(w, h, x, y) ==> NeighbourCount(g, w, h, x, y) <= 5
  {
    CountWithinCandidates(g, w, h, x, y);
    var sx, sy := Span(x, w), Span(y, h);
    if IsCorner(w, h, x, y) {
      assert sx <= 2 && sy <= 2;
      assert sx * sy <= 4;
    }
    if OnEdge(w, h, x, y) {
      assert sx <= 2 || sy <= 2;
      assert sx * sy <= 6;
    }
  }

  /** The `w` by `h` grid of live cells. */
  function Filled(w: nat, h: nat): (r: seq<seq<CellState>>)
    ensures IsGrid(r, w, h)
  {
    seq(w, x => seq(h, y => Alive))
  }

  /** On a grid of live cells the count equals the number of in-grid
      neighbours, so the bound of CountBounds is reached. */
  lemma AllAliveCount(w: nat, h: nat, x: nat, y: nat)
    requires InGrid(w, h, x, y)
    ensures NeighbourCount(Filled(w, h), w, h, x, y) == Candidates(w, h, x, y)
  {
    CountUnfold(Filled(w, h), w, h, x, y);
    CandidatesByRow(w, h, x, y);
  }

  /** A corner has 3 in-grid neighbours, a cell on an edge but not at a
      corner 5, an interior cell 8 (once the grid is at least 2 wide and
      high). */
  lemma CandidateCounts(w: nat, h: nat, x: nat, y: nat)
    requires InGrid(w, h, x, y) && 2 <= w && 2 <= h
    ensures IsCorner(w, h, x, y) ==> Candidates(w, h, x, y) == 3
    ensures OnEdge(w, h, x, y) && !IsCorner(w, h, x, y) ==> Candidates(w, h, x, y) == 5
    ensures !OnEdge(w, h, x, y) ==> Candidates(w, h, x, y) == 8
  {
    var sx, sy := Span(x, w), Span(y, h);
    if IsCorner(w, h, x, y) {
      assert sx == 2 && sy == 2;
    } else if OnEdge(w, h, x, y) {
      assert (sx == 2 && sy == 3) || (sx == 3 && sy == 2);
    } else {
      assert sx == 3 && sy == 3;
    }
  }

  /** Two grids that agree on the in-grid cells adjacent to (x, y) give
      (x, y) the same count: the count reads nothing else. */
  lemma CountIsLocal(g1: seq<seq<CellState>>, g2: seq<seq<CellState>>, w: nat, h: nat, x: nat, y: nat)
    requires IsGrid(g1, w, h) && IsGrid(g2, w, h)
    requires forall i, j :: 0 <= i < w && 0 <= j < h && x - 1 <= i <= x + 1 && y - 1 <= j <= y + 1 ==>
               g1[i][j] == g2[i][j]
    ensures NeighbourCount(g1, w, h, x, y) == NeighbourCount(g2, w, h, x, y)
  {
    CountUnfold(g1, w, h, x, y);
    CountUnfold(g2, w, h, x, y);
    forall i, j | x - 1 <= i <= x + 1 && y - 1 <= j <= y + 1
      ensures LiveAt(g1, w, h, i, j) == LiveAt(g2, w, h, i, j)
    {
      if InGrid(w, h, i, j) {
        assert g1[i][j] == g2[i][j];
      }
    }
  }

  /** A cell's next state depends only on the current 3 by 3 window
      around it, never on other cells' next states. */
  lemma StepIsLocal(g1: seq<seq<CellState>>, g2: seq<seq<CellState>>, w: nat, h: nat, x: nat, y: nat)
    requires IsGrid(g1, w, h) && IsGrid(g2, w, h) && InGrid(w, h, x, y)
    requires forall i, j :: 0 <= i < w && 0 <= j < h && x - 1 <= i <= x + 1 && y - 1 <= j <= y + 1 ==>
               g1[i][j] == g2[i][j]
    ensures Step(g1, w, h)[x][y] == Step(g2, w, h)[x][y]
  {
    CountIsLocal(g1, g2, w, h, x, y);
  }

  /** A grid with a single live cell dies out in one step, wherever the
      cell is (a live cell at a corner has a count of 0, not of its
      wrapped-around neighbours). */
  lemma LoneCellDies(w: nat, h: nat, px: nat, py: nat)
    requires InGrid(w, h, px, py)
    ensures Step(Pattern(w, h, {(px, py)}), w, h) == Pattern(w, h, {})
  {
    var g := Pattern(w, h, {(px, py)});
    var s := Step(g, w, h);
    forall x, y | 0 <= x < w && 0 <= y < h
      ensures s[x][y] == Dead
    {
      CountUnfold(g, w, h, x, y);
      assert NeighbourCount(g, w, h, x, y) <= 1;
    }
    GridEquality(s, Pattern(w, h, {}), w, h);
  }

  /** Two grids of the same shape that agree cell by cell are equal. */
  lemma GridEquality(a: seq<seq<CellState>>, b: seq<seq<CellState>>, w: nat, h: nat)
    requires IsGrid(a, w, h) && IsGrid(b, w, h)
    requires forall x, y :: 0 <= x < w && 0 <= y < h ==> a[x][y] == b[x][y]
    ensures a == b
  {
    forall x | 0 <= x < w
      ensures a[x] == b[x]
    {
      assert forall y :: 0 <= y < h ==> a[x][y] == b[x][y];
    }
  }

  /** The `w` by `h` grid whose only live cells form the 2 by 2 square
      with top-left cell (left, top). */
  function Square(w: nat, h: nat, left: nat, top: nat): (r: seq<seq<CellState>>)
    ensures IsGrid(r, w, h)
    ensures forall x, y :: 0 <= x < w && 0 <= y < h ==> (r[x][y] == Alive <==> InSquare(left, top, x, y))
  {
    seq(w, x requires 0 <= x < w =>
      seq(h, y requires 0 <= y < h => if InSquare(left, top, x, y) then Alive else Dead))
  }

  /** (x, y) is one of the four cells of the square with top-left cell (left, top). */
  predicate InSquare(left: int, top: int, x: int, y: int)
  {
    left <= x <= left + 1 && top <= y <= top + 1
  }

  /** The block, a 2 by 2 square of live cells on an otherwise dead grid,
      is a still life wherever it lies, against an edge or in a corner
      too. */
  lemma BlockIsStill(w: nat, h: nat, left: nat, top: nat)
    requires left + 1 < w && top + 1 < h
    ensures Step(Square(w, h, left, top), w, h) == Square(w, h, left, top)
  {
    var g := Square(w, h, left, top);
    forall x, y | 0 <= x < w && 0 <= y < h
      ensures Step(g, w, h)[x][y] == g[x][y]
    {
      CountUnfold(g, w, h, x, y);
    }
    GridEquality(Step(g, w, h), g, w, h);
  }

  /** The `w` by `h` grid whose only live cells are three in a line
      centred on (cx, cy): along the row when `across`, else along the
      column. */
  function Line(w: nat, h: nat, cx: nat, cy: nat, across: bool): (r: seq<seq<CellState>>)
    ensures IsGrid(r, w, h)
    ensures forall x, y :: 0 <= x < w && 0 <= y < h ==> (r[x][y] == Alive <==> OnLine(cx, cy, across, x, y))
  {
    seq(w, x requires 0 <= x < w =>
      seq(h, y requires 0 <= y < h =>
        if OnLine(cx, cy, across, x, y) then Alive else Dead))
  }

  /** (x, y) is one of the three cells of the line centred on (cx, cy). */
  predicate OnLine(cx: int, cy: int, across: bool, x: int, y: int)
  {
    if across then y == cy && cx - 1 <= x <= cx + 1 else x == cx && cy - 1 <= y <= cy + 1
  }

  /** One cell of the blinker's step from a row to a column. */
  lemma BlinkerRowCell(w: nat, h: nat, cx: nat, cy: nat, x: nat, y: nat)
    requires 1 <= cx && cx + 1 < w && 1 <= cy && cy + 1 < h && InGrid(w, h, x, y)
    ensures Step(Line(w, h, cx, cy, true), w, h)[x][y] == Line(w, h, cx, cy, false)[x][y]
  {
    CountUnfold(Line(w, h, cx, cy, true), w, h, x, y);
  }

  /** One cell of the blinker's step from a column to a row. */
  lemma BlinkerColumnCell(w: nat, h: nat, cx: nat, cy: nat, x: nat, y: nat)
    requires 1 <= cx && cx + 1 < w && 1 <= cy && cy + 1 < h && InGrid(w, h, x, y)
    ensures Step(Line(w, h, cx, cy, false), w, h)[x][y] == Line(w, h, cx, cy, true)[x][y]
  {
    CountUnfold(Line(w, h, cx, cy, false), w, h, x, y);
  }

  /** The blinker: three in a row become three in a column through the
      same centre and back again, an oscillator of period 2. */
  lemma BlinkerOscillates(w: nat, h: nat, cx: nat, cy: nat, across: bool)
    requires 1 <= cx && cx + 1 < w && 1 <= cy && cy + 1 < h
    ensures Step(Line(w, h, cx, cy, across), w, h) == Line(w, h, cx, cy, !across)
  {
    var g, t := Line(w, h, cx, cy, across), Line(w, h, cx, cy, !across);
    forall x, y | 0 <= x < w && 0 <= y < h
      ensures Step(g, w, h)[x][y] == t[x][y]
    {
      if across {
        BlinkerRowCell(w, h, cx, cy, x, y);
      } else {
        BlinkerColumnCell(w, h, cx, cy, x, y);
      }
    }
    GridEquality(Step(g, w, h), t, w, h);
  }

  /** Two steps bring the blinker back. */
  lemma BlinkerPeriodTwo(w: nat, h: nat, cx: nat, cy: nat, across: bool)
    requires 1 <= cx && cx + 1 < w && 1 <= cy && cy + 1 < h
    ensures Step(Step(Line(w, h, cx, cy, across), w, h), w, h) == Line(w, h, cx, cy, across)
    ensures Step(Line(w, h, cx, cy, across), w, h) != Line(w, h, cx, cy, across)
  {
    BlinkerOscillates(w, h, cx, cy, across);
    BlinkerOscillates(w, h, cx, cy, !across);
    var g, t := Line(w, h, cx, cy, across), Line(w, h, cx, cy, !across);
    if across {
      assert g[cx - 1][cy] != t[cx - 1][cy];
    } else {
      assert g[cx][cy - 1] != t[cx][cy - 1];
    }
  }

  /** Toggling the same cell twice restores the grid. */
  lemma ToggleTwice(g: seq<seq<CellState>>, w: nat, h: nat, x: nat, y: nat)
    requires IsGrid(g, w, h) && InGrid(w, h, x, y)
    ensures Toggled(Toggled(g, w, h, x, y), w, h, x, y) == g
  {
    var t := Toggled(Toggled(g, w, h, x, y), w, h, x, y);
    GridEquality(t, g, w, h);
  }

  /** Distinct cells take distinct draws: no draw decides two cells. */
  lemma ScanIndexInjective(w: nat, h: nat, x1: nat, y1: nat, x2: nat, y2: nat)
    requires InGrid(w, h, x1, y1) && InGrid(w, h, x2, y2)
    requires ScanIndex(x1, y1, w, h) == ScanIndex(x2, y2, w, h)
    ensures x1 == x2 && y1 == y2
  {
    if y1 < y2 {
      MulMonotone(y1 + 1, y2, w);
      assert false;
    } else if y2 < y1 {
      MulMonotone(y2 + 1, y1, w);
      assert false;
    }
  }

  lemma MulMonotone(a: nat, b: nat, w: nat)
    requires a <= b
    ensures a * w <= b * w
  {
  }

  /** Clearing loses nothing to the step: a dead grid stays dead. */
  lemma DeadGridIsStill(w: nat, h: nat)
    ensures Step(Pattern(w, h, {}), w, h) == Pattern(w, h, {})
  {
    var g := Pattern(w, h, {});
    forall x, y | 0 <= x < w && 0 <= y < h
      ensures Step(g, w, h)[x][y] == Dead
    {
      CountUnfold(g, w, h, x, y);
    }
    GridEquality(Step(g, w, h), g, w, h);
  }

  /** The draws in [0, 5) that yield a live cell are exactly 0 and 1. */
  lemma LiveDraws()
    ensures (set k | 0 <= k < 5 && Seed(k) == Alive) == {0, 1}
  {
    var live := set k | 0 <= k < 5 && Seed(k) == Alive;
    assert 0 in live && 1 in live;
    forall k | k in live
      ensures k in {0, 1}
    {
    }
  }
}
