/** The neighbourhood pattern drawn in `create_neighbor_pattern`
    (life_game_finish.py, and the same code in life_game.py): a 5 x 5 board of
    0/1 cells whose centre stands for the cell itself. Clicks flip any cell but
    the centre; when the window closes, the 1-cells are read out as offsets
    relative to the centre. */
module Pattern {
  import opened Grids

  /** The pattern is 5 x 5 ... */
  const Size := 5
  /** ... and its middle cell, row and column 2, stands for the cell itself. */
  const Centre := Size / 2

  ghost predicate IsPattern(p: Grid) {
    IsSquare(p, Size)
  }

  /** The effect of one click on cell `(i, j)`: the centre never changes,
      every other cell is flipped between 0 and 1. */
  function Toggle(p: Grid, i: nat, j: nat): (q: Grid)
    requires IsPattern(p) && i < Size && j < Size
    ensures IsPattern(q)
    ensures q[Centre][Centre] == p[Centre][Centre]
    ensures (i, j) != (Centre, Centre) ==> q[i][j] == 1 - p[i][j]
    ensures forall r, c :: 0 <= r < Size && 0 <= c < Size && (r, c) != (i, j) ==> q[r][c] == p[r][c]
  {
    if (i, j) != (Centre, Centre) then SetCell(p, i, j, 1 - p[i][j]) else p
  }

  /** The pattern after a sequence of clicks on the initially empty board. */
  function Drawn(clicks: seq<(nat, nat)>): (p: Grid)
    requires forall k :: 0 <= k < |clicks| ==> clicks[k].0 < Size && clicks[k].1 < Size
    ensures IsPattern(p)
  {
    if clicks == [] then Zeros(Size)
    else
      var last := clicks[|clicks| - 1];
      Toggle(Drawn(clicks[..|clicks| - 1]), last.0, last.1)
  }

  /** Whatever is clicked, a drawn pattern is a 0/1 board with a dead centre. */
  lemma {:induction false} DrawnCentreIsDead(clicks: seq<(nat, nat)>)
    requires forall k :: 0 <= k < |clicks| ==> clicks[k].0 < Size && clicks[k].1 < Size
    ensures IsBinary(Drawn(clicks)) && Drawn(clicks)[Centre][Centre] == 0
  {
    if clicks != [] {
      var prefix := clicks[..|clicks| - 1];
      DrawnCentreIsDead(prefix);
      var p, last := Drawn(prefix), clicks[|clicks| - 1];
      var q := Toggle(p, last.0, last.1);
      assert forall r, c :: 0 <= r < Size && 0 <= c < Size ==> q[r][c] == p[r][c] || q[r][c] == 1 - p[r][c];
    }
  }

  /** One click on `(i, j)` turns a pattern that holds the click parities of
      `m` into one that holds those of `m` with `(i, j)` added once more. */
  lemma ToggleFlipsParity(p: Grid, m: multiset<(nat, nat)>, i: nat, j: nat)
    requires IsPattern(p) && i < Size && j < Size
    requires forall r: nat, c: nat :: r < Size && c < Size ==>
      p[r][c] == if (r, c) == (Centre, Centre) then 0 else m[(r, c)] % 2
    ensures forall r: nat, c: nat :: r < Size && c < Size ==>
      Toggle(p, i, j)[r][c] == if (r, c) == (Centre, Centre) then 0 else (m + multiset{(i, j)})[(r, c)] % 2
  {
    var q, m' := Toggle(p, i, j), m + multiset{(i, j)};
    forall r: nat, c: nat | r < Size && c < Size
      ensures q[r][c] == if (r, c) == (Centre, Centre) then 0 else m'[(r, c)] % 2
    {
      if (r, c) == (i, j) {
        assert m'[(r, c)] == m[(r, c)] + 1;
      } else {
        assert m'[(r, c)] == m[(r, c)];
      }
    }
  }

  /** Clicks are order-independent: every cell other than the centre is 1
      exactly when it was clicked an odd number of times, and the centre is
      always 0. */
  lemma {:induction false} DrawnIsClickParity(clicks: seq<(nat, nat)>)
    requires forall k :: 0 <= k < |clicks| ==> clicks[k].0 < Size && clicks[k].1 < Size
    ensures forall r: nat, c: nat :: r < Size && c < Size ==>
      Drawn(clicks)[r][c] == if (r, c) == (Centre, Centre) then 0 else multiset(clicks)[(r, c)] % 2
  {
    if clicks != [] {
      var prefix, last := clicks[..|clicks| - 1], clicks[|clicks| - 1];
      DrawnIsClickParity(prefix);
      assert clicks == prefix + [last];
      assert multiset(clicks) == multiset(prefix) + multiset{last};
      ToggleFlipsParity(Drawn(prefix), multiset(prefix), last.0, last.1);
    }
  }

  /** The offsets read from columns `0 .. j-1` of row `i`, left to right. */
  function RowOffsets(p: Grid, i: nat, j: nat): seq<Offset>
    requires IsPattern(p) && i < Size && j <= Size
  {
    if j == 0 then []
    else RowOffsets(p, i, j - 1) + (if p[i][j - 1] == 1 then [(i - Centre, j - 1 - Centre)] else [])
  }

  /** The offsets read from rows `0 .. i-1`, in row-major order. */
  function RowsOffsets(p: Grid, i: nat): seq<Offset>
    requires IsPattern(p) && i <= Size
  {
    if i == 0 then [] else RowsOffsets(p, i - 1) + RowOffsets(p, i - 1, Size)
  }

  /** The neighbour list a pattern yields. */
  function PatternOffsets(p: Grid): seq<Offset>
    requires IsPattern(p)
  {
    RowsOffsets(p, Size)
  }

  /** The read-out loop at the end of `create_neighbor_pattern`: appends
      `(i - 2, j - 2)` for every 1-cell, row by row. */
  method ExtractOffsets(p: Grid) returns (neighbors: seq<Offset>)
    requires IsPattern(p)
    ensures neighbors == PatternOffsets(p)
  {
    neighbors := [];
    for i := 0 to Size
      invariant neighbors == RowsOffsets(p, i)
    {
      for j := 0 to Size
        invariant neighbors == RowsOffsets(p, i) + RowOffsets(p, i, j)
      {
        if p[i][j] == 1 {
          neighbors := neighbors + [(i - Centre, j - Centre)];
        }
      }
    }
  }

  /** Row-major order on offsets: first by row, then by column. */
  predicate Before(a: Offset, b: Offset) {
    a.0 < b.0 || (a.0 == b.0 && a.1 < b.1)
  }

  ghost predicate StrictlySorted(s: seq<Offset>) {
    forall a, b :: 0 <= a < b < |s| ==> Before(s[a], s[b])
  }

  lemma {:induction false} RowOffsetsMembers(p: Grid, i: nat, j: nat)
    requires IsPattern(p) && i < Size && j <= Size
    ensures forall o :: o in RowOffsets(p, i, j) <==>
      o.0 == i - Centre && -Centre <= o.1 < j - Centre && p[i][o.1 + Centre] == 1
    ensures StrictlySorted(RowOffsets(p, i, j))
  {
    if j > 0 {
      RowOffsetsMembers(p, i, j - 1);
    }
  }

  lemma {:induction false} RowsOffsetsMembers(p: Grid, i: nat)
    requires IsPattern(p) && i <= Size
    ensures forall o :: o in RowsOffsets(p, i) <==>
      -Centre <= o.0 < i - Centre && -Centre <= o.1 <= Centre && p[o.0 + Centre][o.1 + Centre] == 1
    ensures StrictlySorted(RowsOffsets(p, i))
  {
    if i > 0 {
      RowsOffsetsMembers(p, i - 1);
      RowOffsetsMembers(p, i - 1, Size);
      var s, t := RowsOffsets(p, i - 1), RowOffsets(p, i - 1, Size);
      forall a, b | 0 <= a < b < |s + t|
        ensures Before((s + t)[a], (s + t)[b])
      {
        if b >= |s| && a < |s| {
          assert s[a] in s && t[b - |s|] in t;
        }
      }
    }
  }

  /** The offsets are exactly `(i - 2, j - 2)` for the 1-cells `(i, j)`, so
      they lie in `[-2, 2] x [-2, 2]`; they come in row-major order, so none
      is listed twice. */
  lemma PatternOffsetsExact(p: Grid)
    requires IsPattern(p)
    ensures forall o :: o in PatternOffsets(p) <==>
      -Centre <= o.0 <= Centre && -Centre <= o.1 <= Centre && p[o.0 + Centre][o.1 + Centre] == 1
    ensures StrictlySorted(PatternOffsets(p))
    ensures forall a, b :: 0 <= a < b < |PatternOffsets(p)| ==> PatternOffsets(p)[a] != PatternOffsets(p)[b]
  {
    RowsOffsetsMembers(p, Size);
  }

  /** A pattern whose centre is 0 never yields the offset `(0, 0)`, and each
      of its offsets lies within two cells of the centre. */
  lemma DeadCentreOffsets(p: Grid)
    requires IsPattern(p) && p[Centre][Centre] == 0
    ensures (0, 0) !in PatternOffsets(p)
    ensures forall o :: o in PatternOffsets(p) ==> -2 <= o.0 <= 2 && -2 <= o.1 <= 2
  {
    RowsOffsetsMembers(p, Size);
  }

  /** A pattern drawn by clicking never yields the offset `(0, 0)`, and each
      of its offsets lies within two cells of the centre. */
  lemma DrawnOffsetsExcludeOrigin(clicks: seq<(nat, nat)>)
    requires forall k :: 0 <= k < |clicks| ==> clicks[k].0 < Size && clicks[k].1 < Size
    ensures (0, 0) !in PatternOffsets(Drawn(clicks))
    ensures forall o :: o in PatternOffsets(Drawn(clicks)) ==> -2 <= o.0 <= 2 && -2 <= o.1 <= 2
  {
    DrawnCentreIsDead(clicks);
    DeadCentreOffsets(Drawn(clicks));
  }
}
