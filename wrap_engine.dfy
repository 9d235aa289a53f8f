/** The wrapping engine of life_game_finish.py, repeated word for word in
    life_game.py: a neighbourhood is a list of `(dx, dy)` offsets, and a
    neighbour position is reduced modulo the grid size in both coordinates,
    so the board is a torus. */
module WrapEngine {
  import opened Grids

  /** The default neighbourhood: the list comprehension over
      `dx in (-1, 0, 1)`, `dy in (-1, 0, 1)` without `(0, 0)`, in the order
      the comprehension produces it. It is exactly the eight Moore offsets. */
  function MooreOffsets(): (r: seq<Offset>)
    ensures |r| == 8
    ensures forall a, b :: 0 <= a < b < |r| ==> r[a] != r[b]
    ensures forall k :: 0 <= k < |r| ==> -1 <= r[k].0 <= 1 && -1 <= r[k].1 <= 1 && r[k] != (0, 0)
    ensures forall o: Offset :: -1 <= o.0 <= 1 && -1 <= o.1 <= 1 && o != (0, 0) ==> o in r
  {
    [(-1, -1), (-1, 0), (-1, 1), (0, -1), (0, 1), (1, -1), (1, 0), (1, 1)]
  }

  /** The "cross" neighbourhood of mode 2: exactly the four axis-aligned unit
      offsets. */
  function CrossOffsets(): (r: seq<Offset>)
    ensures |r| == 4
    ensures forall a, b :: 0 <= a < b < |r| ==> r[a] != r[b]
    ensures forall k :: 0 <= k < |r| ==> (r[k].0 == 0 || r[k].1 == 0) && -1 <= r[k].0 + r[k].1 <= 1 && r[k] != (0, 0)
    ensures forall o: Offset :: (o.0 == 0 || o.1 == 0) && -1 <= o.0 + o.1 <= 1 && o != (0, 0) ==> o in r
  {
    [(1, 0), (-1, 0), (0, 1), (0, -1)]
  }

  /** The number of offsets among `nbrs` whose wrapped position holds a 1.
      There is one term per offset, so the count never exceeds `|nbrs|`. */
  function WrapCount(grid: Grid, x: int, y: int, nbrs: seq<Offset>): (c: nat)
    requires |grid| > 0 && IsSquare(grid, |grid|)
    ensures c <= |nbrs|
    decreases |nbrs|
  {
    if nbrs == [] then 0
    else
      var n := |grid|;
      var last := nbrs[|nbrs| - 1];
      WrapCount(grid, x, y, nbrs[..|nbrs| - 1])
        + (if grid[(x + last.0) % n][(y + last.1) % n] == 1 then 1 else 0)
  }

  /** `count_neighbors(grid, x, y, neighbors)`: walks the offset list and
      counts the live cells it finds. Every read is in range, since both
      coordinates are reduced modulo `n`. */
  method CountNeighbors(grid: Grid, x: int, y: int, nbrs: seq<Offset>) returns (count: int)
    requires |grid| > 0 && IsSquare(grid, |grid|)
    ensures count == WrapCount(grid, x, y, nbrs)
    ensures 0 <= count <= |nbrs|
  {
    var n := |grid|;
    count := 0;
    for k := 0 to |nbrs|
      invariant count == WrapCount(grid, x, y, nbrs[..k])
    {
      var (dx, dy) := nbrs[k];
      var nx, ny := (x + dx) % n, (y + dy) % n;
      if grid[nx][ny] == 1 {
        count := count + 1;
      }
      assert nbrs[..k + 1][..k] == nbrs[..k];
    }
    assert nbrs[..|nbrs|] == nbrs;
  }

  /** The grid one generation later. Every cell is judged on `grid`, the
      snapshot taken before the step: the result is `n x n`, holds only 0 and
      1, and a cell is 1 exactly when it was 1 and its count is a survive
      count, or it was not 1 and its count is a birth count. */
  function NextGrid(grid: Grid, nbrs: seq<Offset>, birth: seq<int>, survive: seq<int>): (r: Grid)
    requires IsSquare(grid, |grid|)
    ensures IsSquare(r, |grid|) && IsBinary(r)
    ensures forall i, j :: 0 <= i < |grid| && 0 <= j < |grid| ==>
      (r[i][j] == 1 <==>
        (grid[i][j] == 1 && WrapCount(grid, i, j, nbrs) in survive) ||
        (grid[i][j] != 1 && WrapCount(grid, i, j, nbrs) in birth))
  {
    var n := |grid|;
    seq(n, i requires 0 <= i < n => seq(n, j requires 0 <= j < n => NextCellAt(grid, nbrs, birth, survive, i, j)))
  }

  /** The new state of cell `(i, j)`, judged on `grid`. */
  function NextCellAt(grid: Grid, nbrs: seq<Offset>, birth: seq<int>, survive: seq<int>, i: int, j: int): int
    requires IsSquare(grid, |grid|) && 0 <= i < |grid| && 0 <= j < |grid|
  {
    NextCell(grid[i][j], WrapCount(grid, i, j, nbrs), birth, survive)
  }

  /** `next_generation(grid, neighbors, birth_rules, survive_rules)`: starts
      from a copy of `grid` and overwrites every cell in row-major order,
      always counting on the untouched input. */
  method NextGeneration(grid: Grid, nbrs: seq<Offset>, birth: seq<int>, survive: seq<int>)
    returns (newGrid: Grid)
    requires IsSquare(grid, |grid|)
    ensures newGrid == NextGrid(grid, nbrs, birth, survive)
  {
    var n := |grid|;
    newGrid := grid;
    for i := 0 to n
      invariant IsSquare(newGrid, n)
      invariant forall r, c :: 0 <= r < i && 0 <= c < n ==> newGrid[r][c] == NextCellAt(grid, nbrs, birth, survive, r, c)
    {
      for j := 0 to n
        invariant IsSquare(newGrid, n)
        invariant forall r, c :: 0 <= r < i && 0 <= c < n ==> newGrid[r][c] == NextCellAt(grid, nbrs, birth, survive, r, c)
        invariant forall c :: 0 <= c < j ==> newGrid[i][c] == NextCellAt(grid, nbrs, birth, survive, i, c)
      {
        var c := CountNeighbors(grid, i, j, nbrs);
        if grid[i][j] == 1 {
          newGrid := SetCell(newGrid, i, j, if c in survive then 1 else 0);
        } else {
          newGrid := SetCell(newGrid, i, j, if c in birth then 1 else 0);
        }
      }
    }
    SameCells(newGrid, NextGrid(grid, nbrs, birth, survive), n);
  }

  /** Reducing the cell coordinates modulo `n` first does not change the
      count, so a cell at `x + n` has the same neighbourhood as one at `x`:
      the board is a torus. */
  lemma {:induction false} WrapCountToroidal(grid: Grid, x: int, y: int, nbrs: seq<Offset>)
    requires |grid| > 0 && IsSquare(grid, |grid|)
    ensures WrapCount(grid, x, y, nbrs) == WrapCount(grid, x % |grid|, y % |grid|, nbrs)
  {
    if nbrs != [] {
      var n := |grid|;
      var last := nbrs[|nbrs| - 1];
      WrapCountToroidal(grid, x, y, nbrs[..|nbrs| - 1]);
      ModShift(x, last.0, n);
      ModShift(y, last.1, n);
    }
  }

  /** `(x % n + d) % n == (x + d) % n`: reducing before adding an offset
      changes nothing. */
  lemma ModShift(x: int, d: int, n: int)
    requires n > 0
    ensures (x % n + d) % n == (x + d) % n
  {
    var s := x % n + d;
    var q := x / n;
    assert x == q * n + x % n;
    assert x + d == (q + s / n) * n + s % n;
    ModUnique(x + d, n, q + s / n, s % n);
  }

  /** Euclidean remainders are unique. */
  lemma ModUnique(a: int, n: int, k: int, m: int)
    requires n > 0 && a == k * n + m && 0 <= m < n
    ensures a % n == m
  {
    var q, r := a / n, a % n;
    assert a == q * n + r && 0 <= r < n;
    assert (q - k) * n == m - r;
    if q > k {
      MulAtLeast(q - k, n);
    } else if q < k {
      MulAtLeast(k - q, n);
    }
  }

  lemma MulAtLeast(t: int, n: int)
    requires t >= 1 && n > 0
    ensures t * n >= n
  {
  }

  /** On an all-dead board nothing is counted. */
  lemma {:induction false} ZerosCount(n: nat, x: int, y: int, nbrs: seq<Offset>)
    requires n > 0
    ensures WrapCount(Zeros(n), x, y, nbrs) == 0
  {
    if nbrs != [] {
      ZerosCount(n, x, y, nbrs[..|nbrs| - 1]);
    }
  }

  /** When 0 is not a birth count, the empty board stays empty. */
  lemma EmptyBoardIsStill(n: nat, nbrs: seq<Offset>, birth: seq<int>, survive: seq<int>)
    requires 0 !in birth
    ensures NextGrid(Zeros(n), nbrs, birth, survive) == Zeros(n)
  {
    var next := NextGrid(Zeros(n), nbrs, birth, survive);
    forall i, j | 0 <= i < n && 0 <= j < n
      ensures next[i][j] == Zeros(n)[i][j]
    {
      ZerosCount(n, i, j, nbrs);
      assert next[i][j] == NextCellAt(Zeros(n), nbrs, birth, survive, i, j);
    }
    SameCells(next, Zeros(n), n);
  }

  /** The all-alive `n x n` board. */
  function Ones(n: nat): (g: Grid)
    ensures IsSquare(g, n) && IsBinary(g)
    ensures forall i, j :: 0 <= i < n && 0 <= j < n ==> g[i][j] == 1
  {
    seq(n, _ => seq(n, _ => 1))
  }

  /** On an all-alive board every offset is counted. */
  lemma {:induction false} OnesCount(n: nat, x: int, y: int, nbrs: seq<Offset>)
    requires n > 0
    ensures WrapCount(Ones(n), x, y, nbrs) == |nbrs|
  {
    if nbrs != [] {
      OnesCount(n, x, y, nbrs[..|nbrs| - 1]);
    }
  }

  /** Synchronous update: under the default rules (B3/S23, Moore
      neighbourhood) every cell of an all-alive board sees eight live
      neighbours in the snapshot, so the whole board dies in one step, however
      small it is. */
  lemma AllAliveBoardDies(n: nat)
    requires n > 0
    ensures NextGrid(Ones(n), MooreOffsets(), [3], [2, 3]) == Zeros(n)
  {
    var next := NextGrid(Ones(n), MooreOffsets(), [3], [2, 3]);
    forall i, j | 0 <= i < n && 0 <= j < n
      ensures next[i][j] == Zeros(n)[i][j]
    {
      OnesCellDies(n, i, j);
      assert next[i][j] == NextCellAt(Ones(n), MooreOffsets(), [3], [2, 3], i, j);
    }
    SameCells(next, Zeros(n), n);
  }

  /** A live cell with eight live neighbours dies under B3/S23. */
  lemma OnesCellDies(n: nat, i: int, j: int)
    requires n > 0 && 0 <= i < n && 0 <= j < n
    ensures NextCellAt(Ones(n), MooreOffsets(), [3], [2, 3], i, j) == 0
  {
    OnesCount(n, i, j, MooreOffsets());
    assert Ones(n)[i][j] == 1 && 8 !in [2, 3];
  }
}
