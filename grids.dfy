/** Values shared by every variant of the engine: the optional value used by
    the click handlers and the rule-string dialogs. */
module Wrappers {

  datatype Option<+T> = None | Some(value: T)
}

/** The cell grid and the Life-like birth/survive rule.

    A grid is a Python list of rows, each row a list of ints. The programs only
    ever store 0 (dead) and 1 (alive), but nothing in the type says so; cells
    are therefore `int` here and "0/1" is the predicate `IsBinary`. */
module Grids {

  type Grid = seq<seq<int>>

  /** A relative neighbour position `(dx, dy)`. */
  type Offset = (int, int)

  /** `g` has `n` rows of `n` cells each. */
  ghost predicate IsSquare(g: Grid, n: int) {
    |g| == n && forall i :: 0 <= i < |g| ==> |g[i]| == n
  }

  /** Every cell of `g` is 0 or 1. */
  ghost predicate IsBinary(g: Grid) {
    forall i, j :: 0 <= i < |g| && 0 <= j < |g[i]| ==> g[i][j] == 0 || g[i][j] == 1
  }

  /** The all-dead `n x n` grid every program starts from. */
  function Zeros(n: nat): (g: Grid)
    ensures IsSquare(g, n) && IsBinary(g)
    ensures forall i, j :: 0 <= i < n && 0 <= j < n ==> g[i][j] == 0
  {
    seq(n, _ => seq(n, _ => 0))
  }

  /** The new state of one cell whose current value is `v` and whose neighbour
      count is `c`: a live cell (value 1) survives when `c` is listed in
      `survive`; any other cell is born when `c` is listed in `birth`. The
      result is always 0 or 1 (the full iff is `NextGrid`'s contract in each
      engine). */
  function NextCell(v: int, c: int, birth: seq<int>, survive: seq<int>): (r: int)
    ensures r == 0 || r == 1
  {
    if v == 1 then (if c in survive then 1 else 0)
    else (if c in birth then 1 else 0)
  }

  /** `g` with the single cell `(i, j)` replaced by `v`. */
  function SetCell(g: Grid, i: nat, j: nat, v: int): (h: Grid)
    requires i < |g| && j < |g[i]|
    ensures |h| == |g| && (forall r :: 0 <= r < |g| ==> |h[r]| == |g[r]|)
    ensures h[i][j] == v
    ensures forall r, c :: 0 <= r < |g| && 0 <= c < |g[r]| && (r, c) != (i, j) ==> h[r][c] == g[r][c]
  {
    g[i := g[i][j := v]]
  }

  /** Two `n x n` grids that agree on every cell are equal. */
  lemma SameCells(g: Grid, h: Grid, n: int)
    requires IsSquare(g, n) && IsSquare(h, n)
    requires forall i, j :: 0 <= i < n && 0 <= j < n ==> g[i][j] == h[i][j]
    ensures g == h
  {
    assert forall i :: 0 <= i < n ==> g[i] == h[i];
  }
}
