/** The engine of life_game2.py: the neighbourhood is a square 0/1 matrix
    centred on the cell (half its width, rounded down, either side), and positions that fall off the
    board are skipped instead of wrapped. */
module MaskEngine {
  import opened Grids
  import WrapEngine

  /** A neighbour mask: `size` rows of `size` entries. */
  ghost predicate IsMask(m: Grid) {
    IsSquare(m, |m|)
  }

  /** Mode 1's mask: a 3 x 3 mask whose centre is 0
      and whose other eight entries are 1. */
  function DefaultMask(): (m: Grid)
    ensures IsMask(m) && |m| == 3 && IsBinary(m)
    ensures m[1][1] == 0
    ensures forall i, j :: 0 <= i < 3 && 0 <= j < 3 && (i, j) != (1, 1) ==> m[i][j] == 1
  {
    [[1, 1, 1], [1, 0, 1], [1, 1, 1]]
  }

  /** The value the count adds for position `(a, b)`: the cell's value when
      it is on the board, nothing when it is not. */
  function Clamped(grid: Grid, n: int, a: int, b: int): int
    requires IsSquare(grid, n)
  {
    if 0 <= a < n && 0 <= b < n then grid[a][b] else 0
  }

  /** The number of 1-entries in columns `0 .. j-1` of mask row `i`. */
  function RowOnes(mask: Grid, i: nat, j: nat): nat
    requires IsMask(mask) && i < |mask| && j <= |mask|
  {
    if j == 0 then 0 else RowOnes(mask, i, j - 1) + (if mask[i][j - 1] == 1 then 1 else 0)
  }

  /** The number of 1-entries in mask rows `0 .. i-1`. */
  function MaskOnes(mask: Grid, i: nat): nat
    requires IsMask(mask) && i <= |mask|
  {
    if i == 0 then 0 else MaskOnes(mask, i - 1) + RowOnes(mask, i - 1, |mask|)
  }

  /** What mask row `i`, columns `0 .. j-1`, contribute to the count of cell
      `(x, y)`. */
  function RowCount(grid: Grid, n: int, x: int, y: int, mask: Grid, i: nat, j: nat): int
    requires IsSquare(grid, n) && IsMask(mask) && i < |mask| && j <= |mask|
  {
    if j == 0 then 0
    else
      var offset := |mask| / 2;
      RowCount(grid, n, x, y, mask, i, j - 1)
        + (if mask[i][j - 1] == 1 then Clamped(grid, n, x + i - offset, y + (j - 1) - offset) else 0)
  }

  /** What mask rows `0 .. i-1` contribute to the count of cell `(x, y)`. */
  function MaskCount(grid: Grid, n: int, x: int, y: int, mask: Grid, i: nat): int
    requires IsSquare(grid, n) && IsMask(mask) && i <= |mask|
  {
    if i == 0 then 0 else MaskCount(grid, n, x, y, mask, i - 1) + RowCount(grid, n, x, y, mask, i - 1, |mask|)
  }

  /** On a 0/1 board, part of a mask row counts between 0 and the number of
      1-entries it covers. */
  lemma {:induction false} RowCountBound(grid: Grid, n: int, x: int, y: int, mask: Grid, i: nat, j: nat)
    requires IsSquare(grid, n) && IsMask(mask) && i < |mask| && j <= |mask|
    ensures IsBinary(grid) ==> 0 <= RowCount(grid, n, x, y, mask, i, j) <= RowOnes(mask, i, j)
  {
    if j > 0 {
      RowCountBound(grid, n, x, y, mask, i, j - 1);
    }
  }

  /** On a 0/1 board, mask rows `0 .. i-1` count between 0 and the number of
      1-entries they hold. */
  lemma {:induction false} MaskCountBound(grid: Grid, n: int, x: int, y: int, mask: Grid, i: nat)
    requires IsSquare(grid, n) && IsMask(mask) && i <= |mask|
    ensures IsBinary(grid) ==> 0 <= MaskCount(grid, n, x, y, mask, i) <= MaskOnes(mask, i)
  {
    if i > 0 {
      MaskCountBound(grid, n, x, y, mask, i - 1);
      RowCountBound(grid, n, x, y, mask, i - 1, |mask|);
    }
  }

  /** The live-neighbour count of cell `(x, y)` under `mask`. On a 0/1
      board it is between 0 and the number of 1-entries of the mask. */
  function Count(grid: Grid, n: int, x: int, y: int, mask: Grid): (c: int)
    requires IsSquare(grid, n) && IsMask(mask)
    ensures IsBinary(grid) ==> 0 <= c <= MaskOnes(mask, |mask|)
  {
    MaskCountBound(grid, n, x, y, mask, |mask|);
    MaskCount(grid, n, x, y, mask, |mask|)
  }

  /** The new state of cell `(i, j)`. */
  function NextCellAt(grid: Grid, n: int, mask: Grid, birth: seq<int>, survive: seq<int>, i: int, j: int): int
    requires IsSquare(grid, n) && IsMask(mask) && 0 <= i < n && 0 <= j < n
  {
    NextCell(grid[i][j], Count(grid, n, i, j, mask), birth, survive)
  }

  /** The board one generation later, every cell judged on `grid`: an
      `n x n` 0/1 board whose cell is 1 exactly when it was alive with a
      survive count or not alive with a birth count, and 0 in every other
      case. */
  function NextGrid(grid: Grid, n: nat, mask: Grid, birth: seq<int>, survive: seq<int>): (r: Grid)
    requires IsSquare(grid, n) && IsMask(mask)
    ensures IsSquare(r, n) && IsBinary(r)
    ensures forall i, j :: 0 <= i < n && 0 <= j < n ==>
      (r[i][j] == 1 <==>
        (grid[i][j] == 1 && Count(grid, n, i, j, mask) in survive) ||
        (grid[i][j] != 1 && Count(grid, n, i, j, mask) in birth))
  {
    seq(n, i requires 0 <= i < n => seq(n, j requires 0 <= j < n => NextCellAt(grid, n, mask, birth, survive, i, j)))
  }

  /** The count with a list of offsets and clamping: what position
      `(x + dx, y + dy)` holds, summed over the list, off-board positions
      adding nothing. */
  function OffsetCount(grid: Grid, n: int, x: int, y: int, nbrs: seq<Offset>): int
    requires IsSquare(grid, n)
  {
    OffsetSum(grid, n, x, y, nbrs, |nbrs|)
  }

  /** The clamped count over the first `k` offsets of the list. */
  function OffsetSum(grid: Grid, n: int, x: int, y: int, nbrs: seq<Offset>, k: nat): int
    requires IsSquare(grid, n) && k <= |nbrs|
  {
    if k == 0 then 0 else OffsetSum(grid, n, x, y, nbrs, k - 1) + Clamped(grid, n, x + nbrs[k - 1].0, y + nbrs[k - 1].1)
  }

  /** On a 0/1 board the clamped count over `k` offsets lies in `0 .. k`. */
  lemma {:induction false} OffsetSumBound(grid: Grid, n: int, x: int, y: int, nbrs: seq<Offset>, k: nat)
    requires IsSquare(grid, n) && IsBinary(grid) && k <= |nbrs|
    ensures 0 <= OffsetSum(grid, n, x, y, nbrs, k) <= k
  {
    if k > 0 {
      OffsetSumBound(grid, n, x, y, nbrs, k - 1);
    }
  }

  /** The first `k` offsets of `a + b` are those of `a` when `k` is in `a`. */
  lemma {:induction false} OffsetSumPrefix(grid: Grid, n: int, x: int, y: int, a: seq<Offset>, b: seq<Offset>, k: nat)
    requires IsSquare(grid, n) && k <= |a|
    ensures OffsetSum(grid, n, x, y, a + b, k) == OffsetSum(grid, n, x, y, a, k)
  {
    if k > 0 {
      OffsetSumPrefix(grid, n, x, y, a, b, k - 1);
      assert (a + b)[k - 1] == a[k - 1];
    }
  }

  /** One more offset at the end adds its clamped cell. */
  lemma OffsetCountSnoc(grid: Grid, n: int, x: int, y: int, nbrs: seq<Offset>, o: Offset)
    requires IsSquare(grid, n)
    ensures OffsetCount(grid, n, x, y, nbrs + [o]) == OffsetCount(grid, n, x, y, nbrs) + Clamped(grid, n, x + o.0, y + o.1)
  {
    OffsetSumPrefix(grid, n, x, y, nbrs, [o], |nbrs|);
    assert (nbrs + [o])[|nbrs|] == o;
  }

  /** The offsets of the 1-entries in columns `0 .. j-1` of mask row `i`,
      each taken relative to the mask's centre. */
  function RowOffsets(mask: Grid, i: nat, j: nat): seq<Offset>
    requires IsMask(mask) && i < |mask| && j <= |mask|
  {
    if j == 0 then []
    else
      var offset := |mask| / 2;
      RowOffsets(mask, i, j - 1) + (if mask[i][j - 1] == 1 then [(i - offset, j - 1 - offset)] else [])
  }

  /** The offsets of the 1-entries of mask rows `0 .. i-1`, row-major. */
  function RowsOffsets(mask: Grid, i: nat): seq<Offset>
    requires IsMask(mask) && i <= |mask|
  {
    if i == 0 then [] else RowsOffsets(mask, i - 1) + RowOffsets(mask, i - 1, |mask|)
  }

  /** The offset list a mask stands for. */
  function MaskOffsets(mask: Grid): seq<Offset>
    requires IsMask(mask)
  {
    RowsOffsets(mask, |mask|)
  }

  /** Walking the mask row-major up to column `j` of row `i`: how far the
      mask count so far is from the clamped count over the offsets read so
      far. The walk keeps it at 0. */
  ghost function PrefixGap(grid: Grid, n: int, x: int, y: int, mask: Grid, i: nat, j: nat): int
    requires IsSquare(grid, n) && IsMask(mask) && i < |mask| && j <= |mask|
  {
    MaskCount(grid, n, x, y, mask, i) + RowCount(grid, n, x, y, mask, i, j)
      - OffsetCount(grid, n, x, y, RowsOffsets(mask, i) + RowOffsets(mask, i, j))
  }

  lemma AppendAssoc(a: seq<Offset>, b: seq<Offset>, c: seq<Offset>)
    ensures a + (b + c) == (a + b) + c
  {
  }

  /** One more column of the current row keeps the walk in step: a 1-entry
      adds its clamped cell on both sides. */
  lemma ColumnStepOne(grid: Grid, n: int, x: int, y: int, mask: Grid, i: nat, j: nat)
    requires IsSquare(grid, n) && IsMask(mask) && i < |mask| && 0 < j <= |mask| && mask[i][j - 1] == 1
    requires PrefixGap(grid, n, x, y, mask, i, j - 1) == 0
    ensures PrefixGap(grid, n, x, y, mask, i, j) == 0
  {
    var rows, row := RowsOffsets(mask, i), RowOffsets(mask, i, j - 1);
    var offset := |mask| / 2;
    var o := (i - offset, j - 1 - offset);
    assert RowOffsets(mask, i, j) == row + [o];
    AppendAssoc(rows, row, [o]);
    OffsetCountSnoc(grid, n, x, y, rows + row, o);
  }

  /** A 0-entry adds nothing on either side. */
  lemma ColumnStepZero(grid: Grid, n: int, x: int, y: int, mask: Grid, i: nat, j: nat)
    requires IsSquare(grid, n) && IsMask(mask) && i < |mask| && 0 < j <= |mask| && mask[i][j - 1] != 1
    requires PrefixGap(grid, n, x, y, mask, i, j - 1) == 0
    ensures PrefixGap(grid, n, x, y, mask, i, j) == 0
  {
    var row := RowOffsets(mask, i, j - 1);
    assert RowOffsets(mask, i, j) == row + [];
    assert row + [] == row;
  }

  /** Finishing a row and starting the next keeps the walk in step. */
  lemma RowStep(grid: Grid, n: int, x: int, y: int, mask: Grid, i: nat)
    requires IsSquare(grid, n) && IsMask(mask) && 0 < i < |mask|
    requires PrefixGap(grid, n, x, y, mask, i - 1, |mask|) == 0
    ensures PrefixGap(grid, n, x, y, mask, i, 0) == 0
  {
    assert RowsOffsets(mask, i) + RowOffsets(mask, i, 0) == RowsOffsets(mask, i - 1) + RowOffsets(mask, i - 1, |mask|);
  }

  /** Before the walk starts both sides are 0. */
  lemma PrefixStart(grid: Grid, n: int, x: int, y: int, mask: Grid)
    requires IsSquare(grid, n) && IsMask(mask) && 0 < |mask|
    ensures PrefixGap(grid, n, x, y, mask, 0, 0) == 0
  {
    assert RowsOffsets(mask, 0) + RowOffsets(mask, 0, 0) == [];
  }

  /** At every point of the walk the two counts agree. */
  lemma {:induction false} PrefixCountIsOffsetCount(grid: Grid, n: int, x: int, y: int, mask: Grid, i: nat, j: nat)
    requires IsSquare(grid, n) && IsMask(mask) && i < |mask| && j <= |mask|
    ensures PrefixGap(grid, n, x, y, mask, i, j) == 0
    decreases i, j
  {
    if j > 0 {
      PrefixCountIsOffsetCount(grid, n, x, y, mask, i, j - 1);
      if mask[i][j - 1] == 1 {
        ColumnStepOne(grid, n, x, y, mask, i, j);
      } else {
        ColumnStepZero(grid, n, x, y, mask, i, j);
      }
    } else if i > 0 {
      PrefixCountIsOffsetCount(grid, n, x, y, mask, i - 1, |mask|);
      RowStep(grid, n, x, y, mask, i);
    } else {
      PrefixStart(grid, n, x, y, mask);
    }
  }

  /** A mask counts exactly what the list of its 1-entries' offsets counts
      under clamping. */
  lemma MaskIsOffsetList(grid: Grid, n: int, x: int, y: int, mask: Grid)
    requires IsSquare(grid, n) && IsMask(mask)
    ensures Count(grid, n, x, y, mask) == OffsetCount(grid, n, x, y, MaskOffsets(mask))
  {
    if |mask| > 0 {
      var last := |mask| - 1;
      PrefixCountIsOffsetCount(grid, n, x, y, mask, last, |mask|);
      var s := RowsOffsets(mask, last) + RowOffsets(mask, last, |mask|);
      assert MaskOffsets(mask) == s;
      assert Count(grid, n, x, y, mask) == MaskCount(grid, n, x, y, mask, last) + RowCount(grid, n, x, y, mask, last, |mask|);
    } else {
      assert MaskOffsets(mask) == [];
    }
  }

  /** Mode 1's mask stands for the eight Moore offsets, in the same order as
      the default list of the wrapping engine. */
  lemma DefaultMaskOffsets()
    ensures MaskOffsets(DefaultMask()) == WrapEngine.MooreOffsets()
  {
    var m := DefaultMask();
    assert |m| / 2 == 1;
    assert m == [[1, 1, 1], [1, 0, 1], [1, 1, 1]];
    assert RowOffsets(m, 0, 3) == [(-1, -1), (-1, 0), (-1, 1)] by {
      assert RowOffsets(m, 0, 1) == [(-1, -1)];
      assert RowOffsets(m, 0, 2) == [(-1, -1), (-1, 0)];
    }
    assert RowOffsets(m, 1, 3) == [(0, -1), (0, 1)] by {
      assert RowOffsets(m, 1, 1) == [(0, -1)];
      assert RowOffsets(m, 1, 2) == [(0, -1)];
    }
    assert RowOffsets(m, 2, 3) == [(1, -1), (1, 0), (1, 1)] by {
      assert RowOffsets(m, 2, 1) == [(1, -1)];
      assert RowOffsets(m, 2, 2) == [(1, -1), (1, 0)];
    }
    assert RowsOffsets(m, 1) == [(-1, -1), (-1, 0), (-1, 1)];
    assert RowsOffsets(m, 2) == [(-1, -1), (-1, 0), (-1, 1), (0, -1), (0, 1)];
    assert RowsOffsets(m, 3) == [(-1, -1), (-1, 0), (-1, 1), (0, -1), (0, 1), (1, -1), (1, 0), (1, 1)];
  }

  /** With mode 1's mask, a cell's count is the sum over its eight Moore
      neighbours that lie on the board. */
  lemma DefaultMaskCountsMoore(grid: Grid, n: int, x: int, y: int)
    requires IsSquare(grid, n)
    ensures Count(grid, n, x, y, DefaultMask()) == OffsetCount(grid, n, x, y, WrapEngine.MooreOffsets())
  {
    MaskIsOffsetList(grid, n, x, y, DefaultMask());
    DefaultMaskOffsets();
  }

  /** The live-neighbour count of mode 1 on a 0/1 board is between 0 and 8. */
  lemma DefaultMaskBound(grid: Grid, n: int, x: int, y: int)
    requires IsSquare(grid, n) && IsBinary(grid)
    ensures 0 <= Count(grid, n, x, y, DefaultMask()) <= 8
  {
    var m := DefaultMask();
    assert RowOnes(m, 0, 3) == 3 && RowOnes(m, 1, 3) == 2 && RowOnes(m, 2, 3) == 3;
    assert MaskOnes(m, 3) == 8;
  }

  /** The object `GameOfLife`: board, rules, mask, generation counter and the
      `running` flag of the background runner. */
  class GameOfLife {
    var n: nat
    var mode: int
    var neighborMask: Grid
    var birthRule: seq<int>
    var surviveRule: seq<int>
    var grid: Grid
    var generation: int
    var running: bool

    ghost predicate Valid()
      reads this
    {
      IsSquare(grid, n) && IsMask(neighborMask)
    }

    /** `__init__` with the answers of its dialogs: the size `n`, the mode
        (1 to 3), the mask drawn in `get_neighbor_mask` (used in modes 2 and
        3) and the parsed rule lists (used in mode 3; modes 1 and 2 use
        B3/S23). The board starts empty, stopped, at generation 0. */
    constructor (size: nat, choice: int, drawnMask: Grid, birth: seq<int>, survive: seq<int>)
      requires 1 <= choice <= 3
      requires choice != 1 ==> IsMask(drawnMask)
      ensures Valid()
      ensures n == size && mode == choice && grid == Zeros(size) && generation == 0 && !running
      ensures neighborMask == if choice == 1 then DefaultMask() else drawnMask
      ensures birthRule == (if choice == 3 then birth else [3])
      ensures surviveRule == (if choice == 3 then survive else [2, 3])
    {
      n := size;
      mode := choice;
      running := false;
      generation := 0;
      neighborMask := if choice == 1 then DefaultMask() else drawnMask;
      if choice == 3 {
        birthRule, surviveRule := birth, survive;
      } else {
        birthRule, surviveRule := [3], [2, 3];
      }
      grid := Zeros(size);
    }

    /** `count_neighbors(x, y)`: walks the mask row by row and adds the value
        of every on-board cell under a 1-entry. On a 0/1 board the result is
        between 0 and the number of 1-entries of the mask. */
    method CountNeighbors(x: int, y: int) returns (count: int)
      requires Valid()
      ensures count == Count(grid, n, x, y, neighborMask)
      ensures IsBinary(grid) ==> 0 <= count <= MaskOnes(neighborMask, |neighborMask|)
    {
      count := 0;
      var size := |neighborMask|;
      var offset := size / 2;
      for i := 0 to size
        invariant count == MaskCount(grid, n, x, y, neighborMask, i)
      {
        for j := 0 to size
          invariant count == MaskCount(grid, n, x, y, neighborMask, i) + RowCount(grid, n, x, y, neighborMask, i, j)
        {
          if neighborMask[i][j] == 1 {
            var ni, nj := x + i - offset, y + j - offset;
            if 0 <= ni < n && 0 <= nj < n {
              count := count + grid[ni][nj];
            }
          }
        }
      }
    }

    /** `next_generation`: fills a fresh all-zero board, writing a 1 only
        where a cell survives or is born, then installs it. */
    method NextGeneration()
      requires Valid()
      modifies this
      ensures Valid()
      ensures n == old(n) && mode == old(mode) && neighborMask == old(neighborMask)
      ensures birthRule == old(birthRule) && surviveRule == old(surviveRule)
      ensures generation == old(generation) && running == old(running)
      ensures grid == NextGrid(old(grid), n, neighborMask, birthRule, surviveRule)
    {
      var newGrid := Zeros(n);
      for i := 0 to n
        modifies {}
        invariant IsSquare(newGrid, n)
        invariant forall r, c :: 0 <= r < i && 0 <= c < n ==>
          newGrid[r][c] == NextCellAt(grid, n, neighborMask, birthRule, surviveRule, r, c)
        invariant forall r, c :: i <= r < n && 0 <= c < n ==> newGrid[r][c] == 0
      {
        for j := 0 to n
          invariant IsSquare(newGrid, n)
          invariant forall r, c :: 0 <= r < i && 0 <= c < n ==>
            newGrid[r][c] == NextCellAt(grid, n, neighborMask, birthRule, surviveRule, r, c)
          invariant forall c :: 0 <= c < j ==>
            newGrid[i][c] == NextCellAt(grid, n, neighborMask, birthRule, surviveRule, i, c)
          invariant forall r, c :: 0 <= r < n && 0 <= c < n && (r > i || (r == i && c >= j)) ==> newGrid[r][c] == 0
        {
          var neighbors := CountNeighbors(i, j);
          if grid[i][j] == 1 {
            if neighbors in surviveRule {
              newGrid := SetCell(newGrid, i, j, 1);
            }
          } else {
            if neighbors in birthRule {
              newGrid := SetCell(newGrid, i, j, 1);
            }
          }
        }
      }
      SameCells(newGrid, NextGrid(grid, n, neighborMask, birthRule, surviveRule), n);
      grid := newGrid;
    }

    /** `toggle_cell(i, j)`, called from the board's buttons: flips cell
        `(i, j)` between 0 and 1 and leaves every other cell alone. */
    method ToggleCell(i: int, j: int)
      requires Valid() && 0 <= i < n && 0 <= j < n
      modifies this
      ensures Valid()
      ensures grid == SetCell(old(grid), i, j, 1 - old(grid)[i][j])
      ensures n == old(n) && mode == old(mode) && neighborMask == old(neighborMask)
      ensures birthRule == old(birthRule) && surviveRule == old(surviveRule)
      ensures generation == old(generation) && running == old(running)
    {
      grid := SetCell(grid, i, j, 1 - grid[i][j]);
    }

    /** `stop`: clears the flag the background runner polls. */
    method Stop()
      modifies this
      ensures !running
      ensures n == old(n) && grid == old(grid) && mode == old(mode) && neighborMask == old(neighborMask)
      ensures birthRule == old(birthRule) && surviveRule == old(surviveRule) && generation == old(generation)
    {
      running := false;
    }

    /** `step_once`: ignored while the runner is active; otherwise the
        counter goes up by exactly one and the board advances once. */
    method StepOnce()
      requires Valid()
      modifies this
      ensures Valid()
      ensures n == old(n) && mode == old(mode) && neighborMask == old(neighborMask)
      ensures birthRule == old(birthRule) && surviveRule == old(surviveRule) && running == old(running)
      ensures old(running) ==> grid == old(grid) && generation == old(generation)
      ensures !old(running) ==>
        grid == NextGrid(old(grid), n, neighborMask, birthRule, surviveRule) && generation == old(generation) + 1
    {
      if !running {
        generation := generation + 1;
        NextGeneration();
      }
    }
  }
}
