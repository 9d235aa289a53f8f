/** The engine of game_2.py: class `Life` counts only the four axis-aligned
    neighbours, applies the fixed rule B3/S23, wraps or clamps at the edges
    according to `wrap`, and reports whether a step changed anything. The grid
    is indexed `grid[y][x]`: `x` is the column and `y` the row. */
module VonNeumann {
  import opened Wrappers
  import opened Grids
  import WrapEngine

  /** The directions `count_neighbors` visits, as `(dx, dy)`: left, right,
      up, down. */
  function Directions(): (r: seq<Offset>)
    ensures |r| == 4
  {
    [(-1, 0), (1, 0), (0, -1), (0, 1)]
  }

  /** The directions are exactly the four distinct axis-aligned unit
      offsets, and as a collection the cross offsets of the wrapping
      engine. */
  lemma DirectionsAreAxisUnits()
    ensures var r := Directions();
      && (forall a, b :: 0 <= a < b < |r| ==> r[a] != r[b])
      && (forall k :: 0 <= k < |r| ==> (r[k].0 == 0 || r[k].1 == 0) && -1 <= r[k].0 + r[k].1 <= 1 && r[k] != (0, 0))
      && (forall o: Offset :: (o.0 == 0 || o.1 == 0) && -1 <= o.0 + o.1 <= 1 && o != (0, 0) ==> o in r)
      && multiset(r) == multiset(WrapEngine.CrossOffsets())
  {
  }

  /** What direction `d` adds to the count of cell `(x, y)`: with `wrap`, the
      value at the wrapped position; without, the value at the position when
      it is on the board and nothing otherwise. */
  function DirTerm(grid: Grid, n: int, wrap: bool, x: int, y: int, d: Offset): int
    requires IsSquare(grid, n) && (wrap ==> n > 0)
  {
    var nx, ny := x + d.0, y + d.1;
    if wrap then grid[ny % n][nx % n]
    else if 0 <= nx < n && 0 <= ny < n then grid[ny][nx]
    else 0
  }

  /** The contribution of the first `k` directions. */
  function DirCount(grid: Grid, n: int, wrap: bool, x: int, y: int, k: nat): int
    requires IsSquare(grid, n) && (wrap ==> n > 0) && k <= 4
  {
    if k == 0 then 0 else DirCount(grid, n, wrap, x, y, k - 1) + DirTerm(grid, n, wrap, x, y, Directions()[k - 1])
  }

  /** On a 0/1 board the first `k` directions contribute between 0 and `k`. */
  lemma {:induction false} DirCountBound(grid: Grid, n: int, wrap: bool, x: int, y: int, k: nat)
    requires IsSquare(grid, n) && (wrap ==> n > 0) && k <= 4
    ensures IsBinary(grid) ==> 0 <= DirCount(grid, n, wrap, x, y, k) <= k
  {
    if k > 0 {
      DirCountBound(grid, n, wrap, x, y, k - 1);
    }
  }

  /** The live-neighbour count of cell `(x, y)`; on a 0/1 board it is
      between 0 and 4. */
  function Count(grid: Grid, n: int, wrap: bool, x: int, y: int): (c: int)
    requires IsSquare(grid, n) && (wrap ==> n > 0)
    ensures IsBinary(grid) ==> 0 <= c <= 4
  {
    DirCountBound(grid, n, wrap, x, y, 4);
    DirCount(grid, n, wrap, x, y, 4)
  }

  /** B3/S23 as `step` writes it: alive (1) with 2 or 3 neighbours, or dead
      (0) with exactly 3, gives 1; everything else gives 0. */
  function LifeRule(v: int, nb: int): (r: int)
    ensures r == 0 || r == 1
  {
    if v == 1 && nb in [2, 3] then 1
    else if v == 0 && nb == 3 then 1
    else 0
  }

  function NextCellAt(grid: Grid, n: int, wrap: bool, y: int, x: int): int
    requires IsSquare(grid, n) && 0 <= y < n && 0 <= x < n
  {
    LifeRule(grid[y][x], Count(grid, n, wrap, x, y))
  }

  /** The board after one step, computed from `grid` alone: an `n x n` 0/1
      board whose cell is 1 exactly when it was 1 with 2 or 3 live neighbours
      or 0 with exactly 3. */
  function StepGrid(grid: Grid, n: nat, wrap: bool): (r: Grid)
    requires IsSquare(grid, n)
    ensures IsSquare(r, n) && IsBinary(r)
    ensures forall y, x :: 0 <= y < n && 0 <= x < n ==>
      (r[y][x] == 1 <==>
        (grid[y][x] == 1 && Count(grid, n, wrap, x, y) in [2, 3]) ||
        (grid[y][x] == 0 && Count(grid, n, wrap, x, y) == 3))
  {
    seq(n, y requires 0 <= y < n => seq(n, x requires 0 <= x < n => NextCellAt(grid, n, wrap, y, x)))
  }

  /** On 0/1 cells, game_2's rule is the general birth/survive rule with
      birth `[3]` and survive `[2, 3]`. */
  lemma LifeRuleIsB3S23(v: int, nb: int)
    requires v == 0 || v == 1
    ensures LifeRule(v, nb) == NextCell(v, nb, [3], [2, 3])
  {
  }

  /** The four-direction count, written out term by term. */
  lemma CountTerms(grid: Grid, n: nat, wrap: bool, x: int, y: int)
    requires IsSquare(grid, n) && (wrap ==> n > 0)
    ensures Count(grid, n, wrap, x, y)
      == DirTerm(grid, n, wrap, x, y, (-1, 0)) + DirTerm(grid, n, wrap, x, y, (1, 0))
       + DirTerm(grid, n, wrap, x, y, (0, -1)) + DirTerm(grid, n, wrap, x, y, (0, 1))
  {
    assert DirCount(grid, n, wrap, x, y, 1) == DirTerm(grid, n, wrap, x, y, (-1, 0));
    assert DirCount(grid, n, wrap, x, y, 2) == DirCount(grid, n, wrap, x, y, 1) + DirTerm(grid, n, wrap, x, y, (1, 0));
    assert DirCount(grid, n, wrap, x, y, 3) == DirCount(grid, n, wrap, x, y, 2) + DirTerm(grid, n, wrap, x, y, (0, -1));
  }

  /** The wrapping four-direction count, written out term by term. */
  lemma WrapCountTerms(grid: Grid, n: nat, x: int, y: int)
    requires n > 0 && IsSquare(grid, n)
    ensures Count(grid, n, true, x, y)
      == grid[y % n][(x - 1) % n] + grid[y % n][(x + 1) % n] + grid[(y - 1) % n][x % n] + grid[(y + 1) % n][x % n]
  {
    CountTerms(grid, n, true, x, y);
  }

  /** The wrapping engine's count over the cross offsets, term by term. */
  lemma CrossCountTerms(grid: Grid, i: int, j: int)
    requires |grid| > 0 && IsSquare(grid, |grid|)
    ensures var n := |grid|;
      WrapEngine.WrapCount(grid, i, j, WrapEngine.CrossOffsets())
      == (if grid[(i + 1) % n][j % n] == 1 then 1 else 0) + (if grid[(i - 1) % n][j % n] == 1 then 1 else 0)
       + (if grid[i % n][(j + 1) % n] == 1 then 1 else 0) + (if grid[i % n][(j - 1) % n] == 1 then 1 else 0)
  {
    var cross := WrapEngine.CrossOffsets();
    assert cross[..4] == cross && cross[..4][..3] == cross[..3];
    assert cross[..3][..2] == cross[..2] && cross[..2][..1] == cross[..1] && cross[..1][..0] == [];
    var n := |grid|;
    assert WrapEngine.WrapCount(grid, i, j, cross[..1]) == (if grid[(i + 1) % n][j % n] == 1 then 1 else 0);
    assert WrapEngine.WrapCount(grid, i, j, cross[..2])
      == WrapEngine.WrapCount(grid, i, j, cross[..1]) + (if grid[(i - 1) % n][j % n] == 1 then 1 else 0);
    assert WrapEngine.WrapCount(grid, i, j, cross[..3])
      == WrapEngine.WrapCount(grid, i, j, cross[..2]) + (if grid[i % n][(j + 1) % n] == 1 then 1 else 0);
    assert WrapEngine.WrapCount(grid, i, j, cross)
      == WrapEngine.WrapCount(grid, i, j, cross[..3]) + (if grid[i % n][(j - 1) % n] == 1 then 1 else 0);
  }

  /** With wrapping, the four-direction count of a 0/1 board is the wrapping
      engine's count over the cross offsets (the same four positions, visited
      in another order, with row and column swapped in the notation). */
  lemma WrapCountIsCross(grid: Grid, n: nat, i: int, j: int)
    requires n > 0 && IsSquare(grid, n) && IsBinary(grid) && 0 <= i < n && 0 <= j < n
    ensures Count(grid, n, true, j, i) == WrapEngine.WrapCount(grid, i, j, WrapEngine.CrossOffsets())
  {
    WrapCountTerms(grid, n, j, i);
    CrossCountTerms(grid, i, j);
    WrapEngine.ModUnique(i, n, 0, i);
    WrapEngine.ModUnique(j, n, 0, j);
  }

  /** With wrapping, game_2's step on a 0/1 board is the wrapping engine's
      step under mode 2 of life_game_finish.py (cross neighbourhood, B3/S23). */
  lemma WrapStepIsCrossEngine(grid: Grid, n: nat)
    requires n > 0 && IsSquare(grid, n) && IsBinary(grid)
    ensures StepGrid(grid, n, true) == WrapEngine.NextGrid(grid, WrapEngine.CrossOffsets(), [3], [2, 3])
  {
    var r := StepGrid(grid, n, true);
    var s := WrapEngine.NextGrid(grid, WrapEngine.CrossOffsets(), [3], [2, 3]);
    forall i, j | 0 <= i < n && 0 <= j < n
      ensures r[i][j] == s[i][j]
    {
      WrapCountIsCross(grid, n, i, j);
      LifeRuleIsB3S23(grid[i][j], Count(grid, n, true, j, i));
      assert r[i][j] == NextCellAt(grid, n, true, i, j);
      assert s[i][j] == WrapEngine.NextCellAt(grid, WrapEngine.CrossOffsets(), [3], [2, 3], i, j);
    }
    SameCells(r, s, n);
  }

  /** The object `Life`. */
  class Life {
    var n: nat
    var wrap: bool
    var grid: Grid
    var generation: int

    ghost predicate Valid()
      reads this
    {
      IsSquare(grid, n)
    }

    /** `Life(n, wrap)`: an empty `n x n` board at generation 0. */
    constructor (size: nat, wrapAround: bool)
      ensures Valid()
      ensures n == size && wrap == wrapAround && grid == Zeros(size) && generation == 0
    {
      n := size;
      wrap := wrapAround;
      grid := Zeros(size);
      generation := 0;
    }

    /** `clear`: an empty board and generation 0; size and edge policy kept. */
    method Clear()
      modifies this
      ensures Valid()
      ensures n == old(n) && wrap == old(wrap) && grid == Zeros(n) && generation == 0
    {
      grid := Zeros(n);
      generation := 0;
    }

    /** `randomize(p)`, with `draws[y][x]` the value `random.random()`
        returned for cell `(x, y)`: the board becomes an `n x n` 0/1 board
        whose cell is 1 exactly when its draw is below `p`, and the counter
        is reset to 0. */
    method Randomize(p: real, draws: seq<seq<real>>)
      requires |draws| == n && forall y :: 0 <= y < n ==> |draws[y]| == n
      modifies this
      ensures Valid() && IsBinary(grid)
      ensures n == old(n) && wrap == old(wrap) && generation == 0
      ensures forall y, x :: 0 <= y < n && 0 <= x < n ==> (grid[y][x] == 1 <==> draws[y][x] < p)
    {
      var m := n;
      grid := seq(m, y requires 0 <= y < m => seq(m, x requires 0 <= x < m => if draws[y][x] < p then 1 else 0));
      generation := 0;
    }

    /** `count_neighbors(x, y)`: adds the values of the four axis
        neighbours, reduced modulo `n` when wrapping, skipped when off the
        board otherwise. On a 0/1 board the result is between 0 and 4. */
    method CountNeighbors(x: int, y: int) returns (cnt: int)
      requires Valid() && (wrap ==> n > 0)
      ensures cnt == Count(grid, n, wrap, x, y)
      ensures IsBinary(grid) ==> 0 <= cnt <= 4
    {
      var directions := Directions();
      cnt := 0;
      for k := 0 to 4
        invariant cnt == DirCount(grid, n, wrap, x, y, k)
      {
        var (dx, dy) := directions[k];
        var nx, ny := x + dx, y + dy;
        if wrap {
          nx := nx % n;
          ny := ny % n;
          cnt := cnt + grid[ny][nx];
        } else if 0 <= nx < n && 0 <= ny < n {
          cnt := cnt + grid[ny][nx];
        }
      }
    }

    /** `step`: builds the next board from the current one, installs it, and
        returns whether it differs from the previous board; the generation
        counter goes up by one exactly when it does. */
    method Step() returns (changed: bool)
      requires Valid()
      modifies this
      ensures Valid() && n == old(n) && wrap == old(wrap)
      ensures grid == StepGrid(old(grid), n, wrap)
      ensures changed <==> grid != old(grid)
      ensures generation == if changed then old(generation) + 1 else old(generation)
    {
      var newGrid := Zeros(n);
      for y := 0 to n
        modifies {}
        invariant IsSquare(newGrid, n)
        invariant forall r, c :: 0 <= r < y && 0 <= c < n ==> newGrid[r][c] == NextCellAt(grid, n, wrap, r, c)
        invariant forall r, c :: y <= r < n && 0 <= c < n ==> newGrid[r][c] == 0
      {
        for x := 0 to n
          invariant IsSquare(newGrid, n)
          invariant forall r, c :: 0 <= r < y && 0 <= c < n ==> newGrid[r][c] == NextCellAt(grid, n, wrap, r, c)
          invariant forall c :: 0 <= c < x ==> newGrid[y][c] == NextCellAt(grid, n, wrap, y, c)
          invariant forall r, c :: 0 <= r < n && 0 <= c < n && (r > y || (r == y && c >= x)) ==> newGrid[r][c] == 0
        {
          var nb := CountNeighbors(x, y);
          if grid[y][x] == 1 && nb in [2, 3] {
            newGrid := SetCell(newGrid, y, x, 1);
          } else if grid[y][x] == 0 && nb == 3 {
            newGrid := SetCell(newGrid, y, x, 1);
          }
        }
      }
      SameCells(newGrid, StepGrid(grid, n, wrap), n);
      changed := newGrid != grid;
      grid := newGrid;
      if changed {
        generation := generation + 1;
      }
    }
  }

  /** A fixed point of the step: `step` reports no change, and leaves the
      board and the generation counter as they were. */
  method StepAtFixedPoint(life: Life) returns (changed: bool)
    requires life.Valid() && StepGrid(life.grid, life.n, life.wrap) == life.grid
    modifies life
    ensures !changed && life.grid == old(life.grid) && life.generation == old(life.generation)
  {
    changed := life.Step();
  }

  /** The 4 x 4 board holding a 2 x 2 block in its middle. */
  function Block(): Grid {
    [[0, 0, 0, 0], [0, 1, 1, 0], [0, 1, 1, 0], [0, 0, 0, 0]]
  }

  /** The block is a still life of game_2's engine with either edge policy:
      each of its cells has two live axis neighbours and no dead cell has
      three. */
  lemma BlockIsStill(wrap: bool)
    ensures StepGrid(Block(), 4, wrap) == Block()
  {
    var b := Block();
    var r := StepGrid(b, 4, wrap);
    forall y, x | 0 <= y < 4 && 0 <= x < 4
      ensures r[y][x] == b[y][x]
    {
      assert r[y][x] == LifeRule(b[y][x], Count(b, 4, wrap, x, y));
      BlockCell(wrap, y, x);
    }
    SameCells(r, b, 4);
  }

  lemma BlockCell(wrap: bool, y: int, x: int)
    requires 0 <= y < 4 && 0 <= x < 4
    ensures LifeRule(Block()[y][x], Count(Block(), 4, wrap, x, y)) == Block()[y][x]
  {
    if wrap {
      BlockCellWrap(y, x);
    } else {
      BlockCellClamp(y, x);
    }
  }

  lemma BlockCellWrap(y: int, x: int)
    requires 0 <= y < 4 && 0 <= x < 4
    ensures LifeRule(Block()[y][x], Count(Block(), 4, true, x, y)) == Block()[y][x]
  {
    WrapCountTerms(Block(), 4, x, y);
    WrapIndex4(x - 1);
    WrapIndex4(x);
    WrapIndex4(x + 1);
    WrapIndex4(y - 1);
    WrapIndex4(y);
    WrapIndex4(y + 1);
    if y == 0 {
      if x == 0 {} else if x == 1 {} else if x == 2 {} else {}
    } else if y == 1 {
      if x == 0 {} else if x == 1 {} else if x == 2 {} else {}
    } else if y == 2 {
      if x == 0 {} else if x == 1 {} else if x == 2 {} else {}
    } else {
      if x == 0 {} else if x == 1 {} else if x == 2 {} else {}
    }
  }

  /** A coordinate at most one step off a 4-wide board wraps to the other side. */
  lemma WrapIndex4(k: int)
    requires -1 <= k <= 4
    ensures k % 4 == if k == -1 then 3 else if k == 4 then 0 else k
  {
  }

  lemma BlockCellClamp(y: int, x: int)
    requires 0 <= y < 4 && 0 <= x < 4
    ensures LifeRule(Block()[y][x], Count(Block(), 4, false, x, y)) == Block()[y][x]
  {
    CountTerms(Block(), 4, false, x, y);
    if y == 0 {
      if x == 0 {} else if x == 1 {} else if x == 2 {} else {}
    } else if y == 1 {
      if x == 0 {} else if x == 1 {} else if x == 2 {} else {}
    } else if y == 2 {
      if x == 0 {} else if x == 1 {} else if x == 2 {} else {}
    } else {
      if x == 0 {} else if x == 1 {} else if x == 2 {} else {}
    }
  }

  /** The edge policy matters: on a 3 x 3 board with one live cell in the top
      right corner, the top left corner sees it as its left neighbour when
      wrapping and sees nothing when clamping. */
  lemma WrapAndClampDiffer()
    ensures Count([[0, 0, 1], [0, 0, 0], [0, 0, 0]], 3, true, 0, 0) == 1
    ensures Count([[0, 0, 1], [0, 0, 0], [0, 0, 0]], 3, false, 0, 0) == 0
  {
    var g := [[0, 0, 1], [0, 0, 0], [0, 0, 0]];
    assert DirTerm(g, 3, true, 0, 0, (-1, 0)) == 1;
    assert DirTerm(g, 3, true, 0, 0, (1, 0)) == 0;
    assert DirTerm(g, 3, true, 0, 0, (0, -1)) == 0;
    assert DirTerm(g, 3, true, 0, 0, (0, 1)) == 0;
  }

  /** The window `LifeGUI`: it owns one `Life` (25 x 25, wrapping) and maps
      mouse positions to cells, 25 pixels per cell. */
  class LifeGUI {
    const cellSize: int := 25
    var life: Life
    var running: bool

    ghost predicate Valid()
      reads this, life
    {
      life.Valid()
    }

    constructor ()
      ensures Valid() && fresh(life) && !running
      ensures life.n == 25 && life.wrap && life.grid == Zeros(25) && life.generation == 0
    {
      life := new Life(25, true);
      running := false;
    }

    /** `_resize`, given the value of the size spinbox: a fresh wrapping
        `Life` of that size replaces the old one. */
    method Resize(size: nat)
      modifies this
      ensures Valid() && fresh(life) && running == old(running)
      ensures life.n == size && life.wrap && life.grid == Zeros(size) && life.generation == 0
    {
      life := new Life(size, true);
    }

    /** `_random`: `randomize(0.25)` on the current board. */
    method Random(draws: seq<seq<real>>)
      requires Valid() && |draws| == life.n && forall y :: 0 <= y < life.n ==> |draws[y]| == life.n
      modifies life
      ensures Valid() && IsBinary(life.grid) && life.n == old(life.n) && life.wrap == old(life.wrap)
      ensures life.generation == 0
      ensures forall y, x :: 0 <= y < life.n && 0 <= x < life.n ==> (life.grid[y][x] == 1 <==> draws[y][x] < 0.25)
    {
      life.Randomize(0.25, draws);
    }

    /** `_clear`: stops the run and empties the board. */
    method ClearBoard()
      requires Valid()
      modifies this, life
      ensures Valid() && life == old(life) && !running
      ensures life.n == old(life.n) && life.wrap == old(life.wrap) && life.grid == Zeros(life.n) && life.generation == 0
    {
      running := false;
      life.Clear();
    }

    /** `_pause`: stops the run; the board is untouched. */
    method Pause()
      modifies this
      ensures !running && life == old(life)
    {
      running := false;
    }

    /** `_step_once`: one `step` of the board, whatever the run state; the
        change flag is discarded. */
    method StepOnce()
      requires Valid()
      modifies life
      ensures Valid() && life.n == old(life.n) && life.wrap == old(life.wrap)
      ensures life.grid == StepGrid(old(life.grid), life.n, life.wrap)
      ensures life.generation == if life.grid != old(life.grid) then old(life.generation) + 1 else old(life.generation)
    {
      var _ := life.Step();
    }

    /** `_coords_to_cell(x, y)`: the cell `(column, row)` under pixel
        `(px, py)`, present exactly when the pixel lies on the board, and then
        the cell's square contains the pixel. */
    function CoordsToCell(px: int, py: int): (c: Option<(int, int)>)
      reads this, life
      ensures c.Some? <==> 0 <= px < life.n * cellSize && 0 <= py < life.n * cellSize
      ensures c.Some? ==>
        0 <= c.value.0 < life.n && 0 <= c.value.1 < life.n
        && c.value.0 * cellSize <= px < (c.value.0 + 1) * cellSize
        && c.value.1 * cellSize <= py < (c.value.1 + 1) * cellSize
    {
      DivBounds(px, cellSize, life.n);
      DivBounds(py, cellSize, life.n);
      var cx, cy := px / cellSize, py / cellSize;
      if 0 <= cx < life.n && 0 <= cy < life.n then Some((cx, cy)) else None
    }

    /** `_click_on`: a pixel on the board makes its cell 1; anything else is
        untouched. */
    method ClickOn(px: int, py: int)
      requires Valid()
      modifies life
      ensures Valid() && life.n == old(life.n) && life.wrap == old(life.wrap)
      ensures life.generation == old(life.generation)
      ensures var c := CoordsToCell(px, py);
        if c.Some? then life.grid == SetCell(old(life.grid), c.value.1, c.value.0, 1)
        else life.grid == old(life.grid)
    {
      var c := CoordsToCell(px, py);
      if c.Some? {
        var (x, y) := c.value;
        life.grid := SetCell(life.grid, y, x, 1);
      }
    }

    /** `_click_off`: a pixel on the board makes its cell 0; anything else is
        untouched. */
    method ClickOff(px: int, py: int)
      requires Valid()
      modifies life
      ensures Valid() && life.n == old(life.n) && life.wrap == old(life.wrap)
      ensures life.generation == old(life.generation)
      ensures var c := CoordsToCell(px, py);
        if c.Some? then life.grid == SetCell(old(life.grid), c.value.1, c.value.0, 0)
        else life.grid == old(life.grid)
    {
      var c := CoordsToCell(px, py);
      if c.Some? {
        var (x, y) := c.value;
        life.grid := SetCell(life.grid, y, x, 0);
      }
    }
  }

  /** For a positive divisor `s`, `p / s` is Python's floor division, and it
      lies in `[0, n)` exactly when `p` lies in `[0, n * s)`. */
  lemma DivBounds(p: int, s: int, n: int)
    requires s > 0
    ensures (p / s) * s <= p < (p / s + 1) * s
    ensures 0 <= p / s < n <==> 0 <= p < n * s
  {
    var q := p / s;
    assert p == q * s + p % s;
    if 0 <= q < n {
      assert q * s + s <= n * s by { MulMonotone(q + 1, n, s); }
    }
    if 0 <= p < n * s {
      if q < 0 {
        MulMonotone(q + 1, 0, s);
      }
      if q >= n {
        MulMonotone(n, q, s);
      }
    }
  }

  lemma MulMonotone(a: int, b: int, s: int)
    requires a <= b && s > 0
    ensures a * s <= b * s
  {
    assert b * s - a * s == (b - a) * s;
  }
}
