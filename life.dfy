/**
  The pure part of the Game-of-Life engine: cell states, the B3/S23
  transition rule, the bounded (non-wrapping) Moore-neighbourhood count,
  one whole-grid step, and the clamped cursor move.

  A grid is stored column-major, as the engine stores it: `g[x][y]` is the
  cell in column `x` and row `y`, so `|g|` is the width and every column
  has the height as its length.
 */
module Life {

  datatype CellState = Alive | Dead

  /** A cursor position (column, row). */
  datatype Point = Point(x: nat, y: nat)

  /** Largest grid dimension for which the engine's 16-bit coordinate
      arithmetic in the step is exact. */
  const MaxDimension: nat := 32767

  /** The toggle applied under the cursor. */
  function Flip(c: CellState): (r: CellState)
    ensures r != c
  {
    match c
    case Alive => Dead
    case Dead => Alive
  }

  /** B3/S23: a live cell survives with 2 or 3 live neighbours, a dead cell
      is born with exactly 3; every other cell is dead afterwards. */
  function Rule(c: CellState, n: nat): (r: CellState)
    ensures r == Alive <==> n == 3 || (c == Alive && n == 2)
  {
    match c
    case Alive => if n == 2 || n == 3 then Alive else Dead
    case Dead => if n == 3 then Alive else Dead
  }

  /** `g` is a `w` by `h` grid stored as `w` columns of length `h`. */
  predicate IsGrid(g: seq<seq<CellState>>, w: nat, h: nat)
  {
    |g| == w && forall x :: 0 <= x < w ==> |g[x]| == h
  }

  predicate InGrid(w: nat, h: nat, x: int, y: int)
  {
    0 <= x < w && 0 <= y < h
  }

  /** 1 when (i, j) is a live cell of the grid, 0 when it is dead or
      outside the grid: positions beyond the edge are never counted. */
  function LiveAt(g: seq<seq<CellState>>, w: nat, h: nat, i: int, j: int): nat
    requires IsGrid(g, w, h)
  {
    if InGrid(w, h, i, j) && g[i][j] == Alive then 1 else 0
  }

  /** The contribution of the neighbour at offset (dx, dy) of (x, y);
      the cell itself (offset (0, 0)) never contributes. */
  function Neighbour(g: seq<seq<CellState>>, w: nat, h: nat, x: int, y: int, dx: int, dy: int): nat
    requires IsGrid(g, w, h)
  {
    if dx == 0 && dy == 0 then 0 else LiveAt(g, w, h, x + dx, y + dy)
  }

  /** Live neighbours at offsets (dx, dy) with -1 <= dx < hi, at most one
      per offset scanned. */
  function RowCount(g: seq<seq<CellState>>, w: nat, h: nat, x: int, y: int, dy: int, hi: int): (r: nat)
    requires IsGrid(g, w, h)
    requires -1 <= hi <= 2
    ensures r <= hi + 1
    decreases hi + 1
  {
    if hi == -1 then 0
    else RowCount(g, w, h, x, y, dy, hi - 1) + Neighbour(g, w, h, x, y, hi - 1, dy)
  }

  /** Live neighbours at offsets (dx, dy) with -1 <= dx <= 1 and -1 <= dy < hi,
      at most three per row of offsets scanned. */
  function WindowCount(g: seq<seq<CellState>>, w: nat, h: nat, x: int, y: int, hi: int): (r: nat)
    requires IsGrid(g, w, h)
    requires -1 <= hi <= 2
    ensures r <= 3 * (hi + 1)
    decreases hi + 1
  {
    if hi == -1 then 0
    else WindowCount(g, w, h, x, y, hi - 1) + RowCount(g, w, h, x, y, hi - 1, 2)
  }

  /** The number of live cells among the (up to) eight in-grid cells
      adjacent to (x, y), without wrap-around. */
  function NeighbourCount(g: seq<seq<CellState>>, w: nat, h: nat, x: int, y: int): (r: nat)
    requires IsGrid(g, w, h)
    ensures r <= 8
  {
    WindowCount(g, w, h, x, y, 2)
  }

  /** The state of (x, y) in the next generation: alive exactly when the
      cell has three live neighbours, or is alive and has two. */
  function NextState(g: seq<seq<CellState>>, w: nat, h: nat, x: nat, y: nat): (r: CellState)
    requires IsGrid(g, w, h) && InGrid(w, h, x, y)
    ensures r == Alive <==>
      NeighbourCount(g, w, h, x, y) == 3 || (g[x][y] == Alive && NeighbourCount(g, w, h, x, y) == 2)
  {
    Rule(g[x][y], NeighbourCount(g, w, h, x, y))
  }

  /** One generation: every cell's next state computed from the same,
      unmodified grid `g`. */
  function Step(g: seq<seq<CellState>>, w: nat, h: nat): (r: seq<seq<CellState>>)
    requires IsGrid(g, w, h)
    ensures IsGrid(r, w, h)
  {
    seq(w, x requires 0 <= x < w =>
      seq(h, y requires 0 <= y < h => NextState(g, w, h, x, y)))
  }

  /** The `w` by `h` grid whose live cells are exactly `alive`. */
  function Pattern(w: nat, h: nat, alive: set<(int, int)>): (r: seq<seq<CellState>>)
    ensures IsGrid(r, w, h)
    ensures forall x, y :: 0 <= x < w && 0 <= y < h ==> (r[x][y] == Alive <==> (x, y) in alive)
  {
    seq(w, x requires 0 <= x < w =>
      seq(h, y requires 0 <= y < h => if (x, y) in alive then Alive else Dead))
  }

  /** `g` with the cell at (x, y) flipped. */
  function Toggled(g: seq<seq<CellState>>, w: nat, h: nat, x: nat, y: nat): (r: seq<seq<CellState>>)
    requires IsGrid(g, w, h) && InGrid(w, h, x, y)
    ensures IsGrid(r, w, h)
    ensures r[x][y] == Flip(g[x][y])
    ensures forall i, j :: 0 <= i < w && 0 <= j < h && (i, j) != (x, y) ==> r[i][j] == g[i][j]
  {
    g[x := g[x][y := Flip(g[x][y])]]
  }

  /** The position of cell (x, y) in a row-by-row scan of a `w` by `h`
      grid (rows in order, columns in order within a row): the number of
      cells visited before it. */
  function ScanIndex(x: nat, y: nat, w: nat, h: nat): (k: nat)
    requires x < w && y < h
    ensures k < w * h
  {
    assert y * w + x < (y + 1) * w;
    assert (y + 1) * w <= h * w;
    y * w + x
  }

  /** The cell a random draw in [0, 5) produces: alive for draws 0 and 1. */
  function Seed(roll: int): (r: CellState)
    requires 0 <= roll < 5
    ensures r == Alive <==> roll in {0, 1}
  {
    if roll <= 1 then Alive else Dead
  }

  /** The grid produced by a row-by-row scan that consumes one draw per cell. */
  function SeededGrid(rolls: seq<int>, w: nat, h: nat): (r: seq<seq<CellState>>)
    requires |rolls| == w * h
    requires forall k :: 0 <= k < |rolls| ==> 0 <= rolls[k] < 5
    ensures IsGrid(r, w, h)
    ensures forall x, y :: 0 <= x < w && 0 <= y < h ==>
              (r[x][y] == Alive <==> rolls[ScanIndex(x, y, w, h)] in {0, 1})
  {
    seq(w, x requires 0 <= x < w =>
      seq(h, y requires 0 <= x < w && 0 <= y < h => Seed(rolls[ScanIndex(x, y, w, h)])))
  }

  function Min(a: int, b: int): int { if a <= b then a else b }

  function Max(a: int, b: int): int { if a >= b then a else b }

  /** `v` saturated into [lo, hi]. */
  function Clamp(v: int, lo: int, hi: int): (r: int)
    requires lo <= hi
    ensures lo <= r <= hi
    ensures lo <= v <= hi ==> r == v
    ensures v < lo ==> r == lo
    ensures hi < v ==> r == hi
  {
    Min(Max(v, lo), hi)
  }

  predicate InBounds(p: Point, w: nat, h: nat)
  {
    p.x < w && p.y < h
  }

  /** The cursor after a move by (dx, dy), each axis clamped on its own. */
  function Move(p: Point, dx: int, dy: int, w: nat, h: nat): (r: Point)
    requires 1 <= w && 1 <= h
    ensures InBounds(r, w, h)
    ensures 0 <= p.x + dx < w ==> r.x == p.x + dx
    ensures p.x + dx < 0 ==> r.x == 0
    ensures w <= p.x + dx ==> r.x == w - 1
    ensures 0 <= p.y + dy < h ==> r.y == p.y + dy
    ensures p.y + dy < 0 ==> r.y == 0
    ensures h <= p.y + dy ==> r.y == h - 1
  {
    Point(Clamp(p.x + dx, 0, w - 1), Clamp(p.y + dy, 0, h - 1))
  }

  /** The cursor after a sequence of moves. */
  function Walk(p: Point, moves: seq<(int, int)>, w: nat, h: nat): (r: Point)
    requires 1 <= w && 1 <= h
    requires InBounds(p, w, h)
    ensures InBounds(r, w, h)
    decreases |moves|
  {
    if moves == [] then p
    else Walk(Move(p, moves[0].0, moves[0].1, w, h), moves[1..], w, h)
  }
}
