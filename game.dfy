/**
  The engine object: a grid of cells stored column-major in a 2-D array
  (`cells[x, y]`, first dimension the width), the generation counter and
  the cursor, with the operations the driver loop calls.
 */
module Engine {
  import opened Life
  import LifeProperties

  class Game {
    var generation: nat
    const width: nat
    const height: nat
    var cells: array2<CellState>
    var user: Point

    /** The cells as a column-major grid value. */
    ghost var grid: seq<seq<CellState>>

    /** The object invariant: the array has the grid's dimensions, which
        fit the engine's 16- and 32-bit coordinate arithmetic, `grid`
        holds exactly the array's cells, and the cursor is on the grid. */
    ghost predicate Valid()
      reads this, cells
    {
      && 1 <= width <= MaxDimension
      && 1 <= height <= MaxDimension
      && cells.Length0 == width
      && cells.Length1 == height
      && IsGrid(grid, width, height)
      && (forall x, y :: 0 <= x < width && 0 <= y < height ==> grid[x][y] == cells[x, y])
      && InBounds(user, width, height)
    }

    /** A `width` by `height` grid of dead cells, generation 0, cursor at
        the origin. */
    constructor (width: nat, height: nat)
      requires 1 <= width <= MaxDimension && 1 <= height <= MaxDimension
      ensures Valid() && fresh(cells)
      ensures this.width == width && this.height == height
      ensures grid == Pattern(width, height, {})
      ensures generation == 0 && user == Point(0, 0)
    {
      generation := 0;
      this.width := width;
      this.height := height;
      cells := new CellState[width, height]((_, _) => Dead);
      user := Point(0, 0);
      grid := Pattern(width, height, {});
    }

    /** Replaces every cell, in place, by the outcome of one random draw
        in [0, 5), visiting rows in order and, within a row, columns in
        order; resets the generation. */
    method RandomizeCells(rolls: seq<int>)
      requires Valid()
      requires |rolls| == width * height
      requires forall k :: 0 <= k < |rolls| ==> 0 <= rolls[k] < 5
      modifies this`generation, this`grid, cells
      ensures Valid() && generation == 0
      ensures grid == SeededGrid(rolls, width, height)
    {
      ghost var target := SeededGrid(rolls, width, height);
      var k := 0;
      for y := 0 to height
        invariant k == y * width
        invariant forall i, j :: 0 <= i < width && 0 <= j < y ==> cells[i, j] == target[i][j]
      {
        for x := 0 to width
          invariant k == y * width + x
          invariant forall i, j :: 0 <= i < width && 0 <= j < height && (j < y || (j == y && i < x)) ==>
                      cells[i, j] == target[i][j]
        {
          assert k == ScanIndex(x, y, width, height);
          cells[x, y] := Seed(rolls[k]);
          k := k + 1;
        }
        assert k == (y + 1) * width;
      }
      generation := 0;
      grid := target;
    }

    /** Kills every cell, in place, and resets the generation. */
    method ClearCells()
      requires Valid()
      modifies this`generation, this`grid, cells
      ensures Valid() && generation == 0
      ensures grid == Pattern(width, height, {})
    {
      for y := 0 to height
        invariant forall i, j :: 0 <= i < width && 0 <= j < y ==> cells[i, j] == Dead
      {
        for x := 0 to width
          invariant forall i, j :: 0 <= i < width && 0 <= j < height && (j < y || (j == y && i < x)) ==>
                      cells[i, j] == Dead
        {
          cells[x, y] := Dead;
        }
      }
      generation := 0;
      grid := Pattern(width, height, {});
    }

    /** Moves the cursor by (dx, dy), clamping each axis to the grid. The
        deltas and their sums with the cursor are 32-bit signed values in
        the engine. */
    method MoveUser(dx: int, dy: int)
      requires Valid()
      requires IsI32(dx) && IsI32(dy) && IsI32(user.x + dx) && IsI32(user.y + dy)
      modifies this`user
      ensures Valid()
      ensures user == Move(old(user), dx, dy, width, height)
    {
      user := Point(Min(Max(user.x + dx, 0), width - 1), user.y);
      user := Point(user.x, Min(Max(user.y + dy, 0), height - 1));
    }

    /** Flips the cell under the cursor, in place. */
    method ReverseByUser()
      requires Valid()
      modifies this`grid, cells
      ensures Valid()
      ensures grid == Toggled(old(grid), width, height, user.x, user.y)
    {
      cells[user.x, user.y] := Flip(cells[user.x, user.y]);
      grid := Toggled(grid, width, height, user.x, user.y);
    }

    /** The number of live cells among the in-grid neighbours of (x, y),
        scanning offsets row by row and skipping the cell itself, in a
        16-bit counter that the bounds on the partial sums keep from
        overflowing. */
    method CountAlive(x: nat, y: nat) returns (aliveCount: U16)
      requires Valid() && InGrid(width, height, x, y)
      ensures aliveCount as int == NeighbourCount(grid, width, height, x, y)
    {
      aliveCount := 0;
      for dy := -1 to 2
        invariant aliveCount as int == WindowCount(grid, width, height, x, y, dy)
      {
        if y + dy < 0 || height <= y + dy {
          LifeProperties.OutsideRow(grid, width, height, x, y, dy, 2);
          continue;
        }
        for dx := -1 to 2
          invariant aliveCount as int == WindowCount(grid, width, height, x, y, dy) + RowCount(grid, width, height, x, y, dy, dx)
        {
          assert RowCount(grid, width, height, x, y, dy, dx + 1) ==
            RowCount(grid, width, height, x, y, dy, dx) + Neighbour(grid, width, height, x, y, dx, dy);
          if x + dx < 0 || width <= x + dx { continue; }
          if dx == 0 && dy == 0 { continue; }
          if cells[x + dx, y + dy] == Alive {
            aliveCount := aliveCount + 1;
          }
        }
      }
    }

    /** The next state of (x, y): the rule applied to its current state
        and its live-neighbour count. */
    method NextCell(x: nat, y: nat) returns (c: CellState)
      requires Valid() && InGrid(width, height, x, y)
      ensures c == NextState(grid, width, height, x, y)
    {
      var aliveCount := CountAlive(x, y);
      c := Rule(cells[x, y], aliveCount as nat);
    }

    /** Advances one generation: every next state is computed from the
        current cells into a fresh buffer, which then replaces the grid. */
    method Update()
      requires Valid()
      modifies this
      ensures Valid() && fresh(cells)
      ensures grid == Step(old(grid), width, height)
      ensures generation == old(generation) + 1 && user == old(user)
    {
      ghost var target := Step(grid, width, height);
      var next := new CellState[width, height]((_, _) => Dead);
      for y := 0 to height
        modifies next
        invariant Valid()
        invariant forall i, j :: 0 <= i < width && 0 <= j < y ==> next[i, j] == target[i][j]
      {
        for x := 0 to width
          invariant Valid()
          invariant forall i, j :: 0 <= i < width && 0 <= j < height && (j < y || (j == y && i < x)) ==>
                      next[i, j] == target[i][j]
        {
          next[x, y] := NextCell(x, y);
        }
      }
      cells := next;
      grid := target;
      generation := generation + 1;
    }
  }

  /** Two toggles in a row under an unmoved cursor restore every cell. */
  method ReverseTwice(game: Game)
    requires game.Valid()
    modifies game`grid, game.cells
    ensures game.Valid() && game.grid == old(game.grid)
    ensures forall x, y :: 0 <= x < game.width && 0 <= y < game.height ==> game.cells[x, y] == old(game.cells[x, y])
  {
    game.ReverseByUser();
    game.ReverseByUser();
    LifeProperties.ToggleTwice(old(game.grid), game.width, game.height, game.user.x, game.user.y);
  }

  /** The engine's 16-bit unsigned neighbour counter: an increment past
      its range would be a verification failure, not a wrap. */
  newtype U16 = n: int | 0 <= n < 0x1_0000

  predicate IsI32(v: int)
  {
    -0x8000_0000 <= v < 0x8000_0000
  }
}
