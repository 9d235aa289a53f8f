/** The controller `LifeApp` of life_game_finish.py: the board, the
    generation counter and the current rules, with the actions behind its
    buttons. Drawing, dialogs and the timer are not part of this model; the
    values they deliver (a click position, a chosen mode, the parsed rule
    lists, the generation limit) are parameters. */
module LifeAppModel {
  import opened Wrappers
  import opened Grids
  import WrapEngine
  import Pattern

  class LifeApp {
    /** `cell_size`: pixels per cell on the canvas. */
    const cellSize: int := 20

    var n: nat
    var grid: Grid
    var mode: int
    var neighbors: seq<Offset>
    var birthRules: seq<int>
    var surviveRules: seq<int>
    var running: bool
    var generation: int

    ghost predicate Valid()
      reads this
    {
      IsSquare(grid, n)
    }

    /** `__init__`: a 10 x 10 empty board, mode 1 (Moore neighbourhood,
        B3/S23), stopped, generation 0. */
    constructor ()
      ensures Valid()
      ensures n == 10 && grid == Zeros(10) && generation == 0 && !running
      ensures mode == 1 && neighbors == WrapEngine.MooreOffsets()
      ensures birthRules == [3] && surviveRules == [2, 3]
    {
      n := 10;
      grid := Zeros(10);
      mode := 1;
      neighbors := WrapEngine.MooreOffsets();
      birthRules := [3];
      surviveRules := [2, 3];
      running := false;
      generation := 0;
    }

    /** `choose_mode`, given the answer to the mode dialog. For mode 3,
        `drawn` is the pattern produced by the drawing window, and
        `birthInput`/`surviveInput` are the two rule strings after parsing
        (`None` where `int()` rejected the text). The neighbour list is
        replaced before the rules are parsed and the birth list before the
        survive list, so a rejected string leaves those earlier assignments in
        place; only a complete choice sets the mode and resets the generation.
        An unknown mode changes nothing. The board is never touched. */
    method ChooseMode(choice: int, drawn: Grid, birthInput: Option<seq<int>>, surviveInput: Option<seq<int>>)
      requires Valid()
      requires choice == 3 ==> Pattern.IsPattern(drawn)
      modifies this
      ensures Valid() && n == old(n) && grid == old(grid) && running == old(running)
      ensures choice == 1 ==>
        neighbors == WrapEngine.MooreOffsets() && birthRules == [3] && surviveRules == [2, 3]
        && mode == 1 && generation == 0
      ensures choice == 2 ==>
        neighbors == WrapEngine.CrossOffsets() && birthRules == [3] && surviveRules == [2, 3]
        && mode == 2 && generation == 0
      ensures choice == 3 ==>
        neighbors == Pattern.PatternOffsets(drawn)
        && birthRules == (if birthInput.Some? then birthInput.value else old(birthRules))
        && surviveRules == (if birthInput.Some? && surviveInput.Some? then surviveInput.value else old(surviveRules))
        && (mode, generation) == (if birthInput.Some? && surviveInput.Some? then (3, 0) else (old(mode), old(generation)))
      ensures choice !in {1, 2, 3} ==>
        neighbors == old(neighbors) && birthRules == old(birthRules) && surviveRules == old(surviveRules)
        && mode == old(mode) && generation == old(generation)
    {
      if choice == 1 {
        neighbors := WrapEngine.MooreOffsets();
        birthRules := [3];
        surviveRules := [2, 3];
        mode := 1;
      } else if choice == 2 {
        neighbors := WrapEngine.CrossOffsets();
        birthRules := [3];
        surviveRules := [2, 3];
        mode := 2;
      } else if choice == 3 {
        neighbors := Pattern.ExtractOffsets(drawn);
        if birthInput.None? {
          return;
        }
        birthRules := birthInput.value;
        if surviveInput.None? {
          return;
        }
        surviveRules := surviveInput.value;
        mode := 3;
      } else {
        return;
      }
      generation := 0;
    }

    /** `apply_size`, given the value read from the size spinbox: the board
        becomes an empty `val x val` board; the generation counter, the rules
        and the run state are kept. */
    method ApplySize(val: nat)
      modifies this
      ensures Valid() && n == val && grid == Zeros(val)
      ensures neighbors == old(neighbors) && birthRules == old(birthRules) && surviveRules == old(surviveRules)
      ensures mode == old(mode) && running == old(running) && generation == old(generation)
    {
      n := val;
      grid := Zeros(val);
    }

    /** `clear`: an empty `n x n` board and generation 0. */
    method Clear()
      requires Valid()
      modifies this
      ensures Valid() && n == old(n) && grid == Zeros(n) && generation == 0
      ensures neighbors == old(neighbors) && birthRules == old(birthRules) && surviveRules == old(surviveRules)
      ensures mode == old(mode) && running == old(running)
    {
      grid := Zeros(n);
      generation := 0;
    }

    /** `toggle_cell`: the click at pixel `(px, py)` hits row `py // 20`,
        column `px // 20`; a cell inside the board is flipped between 0 and 1
        and a click outside it changes nothing. */
    method ToggleCell(px: int, py: int)
      requires Valid()
      modifies this
      ensures Valid() && n == old(n) && generation == old(generation)
      ensures neighbors == old(neighbors) && birthRules == old(birthRules) && surviveRules == old(surviveRules)
      ensures mode == old(mode) && running == old(running)
      ensures var i, j := py / cellSize, px / cellSize;
        if 0 <= i < n && 0 <= j < n then grid == SetCell(old(grid), i, j, 1 - old(grid)[i][j])
        else grid == old(grid)
    {
      var i := py / cellSize;
      var j := px / cellSize;
      if 0 <= i < n && 0 <= j < n {
        grid := SetCell(grid, i, j, 1 - grid[i][j]);
      }
    }

    /** `pause`: stops the run loop (cancelling the pending timer is not
        modelled). */
    method Pause()
      modifies this
      ensures !running
      ensures n == old(n) && grid == old(grid) && generation == old(generation)
      ensures neighbors == old(neighbors) && birthRules == old(birthRules) && surviveRules == old(surviveRules)
      ensures mode == old(mode)
    {
      running := false;
    }

    /** `step`, with `maxGen` the value of the generation spinbox: below the
        limit the board advances one generation under the current rules and
        the counter goes up by exactly one (whether or not anything changed);
        at or past the limit the run stops, the board is emptied and the
        counter is reset to 0. */
    method Step(maxGen: int)
      requires Valid()
      modifies this
      ensures Valid() && n == old(n)
      ensures neighbors == old(neighbors) && birthRules == old(birthRules) && surviveRules == old(surviveRules)
      ensures mode == old(mode)
      ensures old(generation) < maxGen ==>
        grid == WrapEngine.NextGrid(old(grid), neighbors, birthRules, surviveRules)
        && generation == old(generation) + 1 && running == old(running)
      ensures old(generation) >= maxGen ==> grid == Zeros(n) && generation == 0 && !running
    {
      if generation >= maxGen {
        Pause();
        Clear();
        return;
      }
      grid := WrapEngine.NextGeneration(grid, neighbors, birthRules, surviveRules);
      generation := generation + 1;
    }
  }
}
