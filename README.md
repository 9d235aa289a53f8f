# Life-like cellular automata: a verified model of the engines

The repository holds four small Python programs that play Conway's Game of
Life and its variants on an `n x n` board of 0/1 cells. Around the Tk windows,
each program has the same small core: count the live neighbours of a cell,
then build the next board from a snapshot of the current one. The core comes
in three forms, and this project models all three.

- **Wrapping engine over an offset list** (`life_game_finish.py`, and the same
  code in `life_game.py`).
  - A neighbourhood is a list of `(dx, dy)` offsets. Neighbour coordinates are
    reduced modulo `n`, so the board is a torus.
  - The rules are a birth list and a survive list.
  - The controller `LifeApp` holds the board, the generation counter and the
    current rules. Its button actions are modelled: mode choice, resize, clear,
    toggle, pause and step.
  - A 5 x 5 pattern whose centre cannot be clicked can be read out as a custom
    offset list.
  - Module `WrapEngine` holds the engine, `Pattern` the drawn pattern and
    `LifeAppModel` the controller.
- **Clamping engine over a mask matrix** (`life_game2.py`).
  - The neighbourhood is a square 0/1 matrix centred on the cell.
  - Neighbours that fall off the board are skipped.
  - `step_once` advances the counter only while the runner is stopped.
  - Module `MaskEngine`, class `GameOfLife`.
- **Von Neumann engine** (`game_2.py`).
  - Class `Life` counts only the four axis neighbours and uses the fixed rule
    B3/S23.
  - It either wraps or clamps at the edges.
  - `step` reports whether the board changed; the counter goes up only when it
    did.
  - `LifeGUI` maps mouse pixels to cells and edits the board.
  - Module `VonNeumann`.

Module `Grids` holds what these share:
- the grid type `seq<seq<int>>`, which is Python's list of rows;
- the `n x n` and 0/1 predicates;
- the birth/survive cell rule;
- the one-cell update `SetCell`, which models `grid[i][j] = v`.

## How the model is built

- **Imperative code stays imperative.** Each engine loop in the source is a
  Dafny `method` with a `for` loop. Each method is proved equal to a specification
  function:
  - `CountNeighbors` equals `WrapCount`, `MaskEngine.Count` or
    `VonNeumann.Count`;
  - `next_generation`/`step` equals `NextGrid` or `StepGrid`;
  - the pattern read-out equals `PatternOffsets`.

  The properties the programs rely on are then proved about those functions.
- **Objects are classes.** Each object whose fields change is a class whose
  methods `modify` it. Each method's `ensures` gives the whole new state.
- **The update is synchronous.** Every new cell is judged on the board as it
  was before the step:
  - `life_game_finish.py`/`life_game.py` write into a deep copy;
  - `life_game2.py` and `game_2.py` write into a fresh all-zero board and only
    ever write 1s.

  The model does the same with an invariant over the untouched input.
- **Generation counting differs between the programs, as written.**
  - `LifeApp.Step` always adds one below the limit.
  - `GameOfLife.StepOnce` adds one whenever the runner is stopped.
  - `Life.Step` adds one exactly when the board changed.
- **Mode 3 of `choose_mode` is modelled in its order of assignments.**
  - The neighbour list is replaced first. Then the birth rules are parsed and
    assigned, then the survive rules.
  - If a rule string is rejected, the method returns early. The assignments
    already made stay in place, and the mode and the counter are not touched.
  - The model takes the two parse outcomes as `Option` values.
- **Inputs from widgets and dialogs are parameters.** These are the click
  pixel, the chosen mode, the spinbox values, the drawn pattern or mask, and
  the values `random.random()` returned. `life_game.py`'s `count_neighbors`,
  `next_generation` and pattern read-out (lines 7-27, 83-88) are textually
  identical to `life_game_finish.py` lines 56-77 and 47-51, so the same members
  model both.
- **Cross-engine results.**
  - With wrapping, `game_2.py`'s step on a 0/1 board equals the offset-list
    engine in mode 2 (`WrapStepIsCrossEngine`).
  - Mode 1's mask computes the same count as the list of the eight Moore
    offsets (`DefaultMaskOffsets`, `DefaultMaskCountsMoore`).

## Model

| member | source | states |
|---|---|---|
| Grids.Zeros | life_game_finish.py:88 | the fresh board is `n x n`, 0/1 and entirely 0 |
| Grids.NextCell | life_game_finish.py:73-76 | the birth/survive rule for one cell always yields 0 or 1 (which of them is stated by `NextGrid` in each engine) |
| Grids.SetCell | life_game_finish.py:204 | assigning one cell keeps every row length, sets that cell, and leaves every other cell as it was |
| WrapEngine.MooreOffsets | life_game_finish.py:93-94 | the default list has 8 distinct offsets, all in [-1,1]² and none (0,0), and every such offset is in it |
| WrapEngine.CrossOffsets | life_game_finish.py:160 | the mode-2 list has exactly the 4 distinct axis-aligned unit offsets |
| WrapEngine.WrapCount | life_game_finish.py:56-63 | the wrapped count over a list of offsets is at most the length of the list |
| WrapEngine.CountNeighbors | life_game_finish.py:56-63 | the loop returns the wrapped count, which lies between 0 and the number of offsets |
| WrapEngine.WrapCountToroidal | life_game_finish.py:60 | reducing the cell coordinates modulo `n` first does not change the count: the board is a torus |
| WrapEngine.NextGrid | life_game_finish.py:67-77 | the next board is `n x n` and 0/1; a cell is 1 iff it was 1 and its count (on the old board) is a survive count, or it was not 1 and its count is a birth count |
| WrapEngine.NextGeneration | life_game_finish.py:67-77 | the nested loops over a copy of the input produce exactly `NextGrid` of the unchanged input |
| WrapEngine.ZerosCount | life_game.py:22 | on the empty board every count is 0 |
| WrapEngine.EmptyBoardIsStill | life_game.py:23-26 | when 0 is not a birth count, the empty board maps to itself |
| WrapEngine.AllAliveBoardDies | life_game_finish.py:69-76 | under B3/S23 with the Moore list a full board of any size `n > 0` dies in one step: every cell sees eight live neighbours on the snapshot, which is more than 3 |
| Pattern.Toggle | life_game_finish.py:32-36 | a click flips exactly the clicked cell unless it is the centre, which never changes |
| Pattern.Drawn | life_game_finish.py:32-37 | any sequence of in-range clicks on the empty pattern yields a 5 x 5 pattern |
| Pattern.DrawnIsClickParity | life_game_finish.py:32-37 | after any clicks, a cell other than the centre is 1 iff it was clicked an odd number of times, so the order of the clicks does not matter; the centre is 0 |
| Pattern.DrawnCentreIsDead | life_game_finish.py:35 | after any clicks, the pattern is 0/1 and its centre is 0 |
| Pattern.ExtractOffsets | life_game_finish.py:47-51 | the read-out loop yields exactly `PatternOffsets` of the pattern |
| Pattern.PatternOffsetsExact | life_game.py:83-88 | an offset is listed iff it is `(i-2, j-2)` for a 1-cell `(i, j)`; the list is in strict row-major order, so it has no repeats |
| Pattern.DeadCentreOffsets | life_game_finish.py:47-51 | a pattern with a dead centre never yields (0,0), and all its offsets lie in [-2,2]² |
| Pattern.DrawnOffsetsExcludeOrigin | life_game_finish.py:32-51 | a drawn pattern never yields (0,0), and all its offsets lie in [-2,2]² |
| LifeAppModel.LifeApp.constructor | life_game_finish.py:86-100 | empty 10 x 10 board, mode 1 with the Moore list and B3/S23, stopped, generation 0 |
| LifeAppModel.LifeApp.ChooseMode | life_game_finish.py:149-184 | modes 1 and 2 install their list and B3/S23 and reset the counter; mode 3 installs the drawn offsets, then assigns each rule list only while parsing succeeds, and sets mode 3 and resets the counter only when both parse; any other answer changes nothing; the board is never touched |
| LifeAppModel.LifeApp.ApplySize | life_game_finish.py:188-193 | the board becomes an empty `val x val` board; counter, rules and mode are kept |
| LifeAppModel.LifeApp.Clear | life_game_finish.py:195-198 | the board becomes all-zero `n x n` and the counter 0; everything else is kept |
| LifeAppModel.LifeApp.ToggleCell | life_game_finish.py:200-205 | the click selects row `py // 20` and column `px // 20`; inside the board that one cell is flipped, outside nothing changes |
| LifeAppModel.LifeApp.Pause | life_game_finish.py:237-241 | the run stops; board and counter are untouched |
| LifeAppModel.LifeApp.Step | life_game_finish.py:221-230 | below the limit the board becomes `NextGrid` of the old one and the counter goes up by exactly 1; at or past the limit the run stops, the board is emptied and the counter is 0 |
| MaskEngine.DefaultMask | life_game2.py:93 | mode 1's mask is 3 x 3, 0/1, 0 in the centre and 1 elsewhere |
| MaskEngine.RowCountBound | life_game2.py:143-148 | on a 0/1 board, the clamped count of part of a mask row is between 0 and the number of 1-entries in that part |
| MaskEngine.MaskCountBound | life_game2.py:143-148 | on a 0/1 board, the clamped mask count is between 0 and the number of 1-entries of the mask |
| MaskEngine.Count | life_game2.py:139-149 | on a 0/1 board the count of a cell lies between 0 and the number of 1-entries of the mask |
| MaskEngine.NextGrid | life_game2.py:151-162 | the next board is `n x n` and 0/1; a cell is 1 iff it was 1 with a survive count or was not 1 with a birth count, judged on the old board, and otherwise it stays at the initial 0 |
| MaskEngine.OffsetSumBound | life_game2.py:145-148 | on a 0/1 board the clamped count over `k` offsets lies in 0..k |
| MaskEngine.PrefixCountIsOffsetCount | life_game2.py:143-148 | at every point of the row-major walk over the mask, the count so far equals the clamped count over the offsets of the 1-entries passed so far |
| MaskEngine.MaskIsOffsetList | life_game2.py:139-149 | the mask count is the clamped count over the list of the mask's 1-entries, each taken as an offset from the mask's centre, in row-major order |
| MaskEngine.DefaultMaskOffsets | life_game2.py:93 | mode 1's mask stands for exactly the Moore offset list of life_game_finish.py, in the same order |
| MaskEngine.DefaultMaskCountsMoore | life_game2.py:143-148 | with mode 1's mask, the count is the clamped count over the eight Moore offsets |
| MaskEngine.DefaultMaskBound | life_game2.py:139-149 | with mode 1's mask, the count on a 0/1 board lies in 0..8 |
| MaskEngine.GameOfLife.constructor | life_game2.py:10-53 | stopped, generation 0, empty `n x n` board; mode 1 uses the default mask, other modes the drawn mask; mode 3 uses the parsed rules, the others B3/S23 |
| MaskEngine.GameOfLife.CountNeighbors | life_game2.py:139-149 | the nested loops return the mask count, between 0 and the number of 1-entries on a 0/1 board |
| MaskEngine.GameOfLife.NextGeneration | life_game2.py:151-162 | the board becomes `NextGrid` of the old board; rules, mask, counter and run state are kept |
| MaskEngine.GameOfLife.ToggleCell | life_game2.py:135-137 | exactly cell `(i, j)` is flipped |
| MaskEngine.GameOfLife.Stop | life_game2.py:176-177 | the runner flag is cleared and nothing else changes |
| MaskEngine.GameOfLife.StepOnce | life_game2.py:179-182 | while running nothing changes; otherwise the counter goes up by exactly 1 and the board advances once |
| VonNeumann.Directions | game_2.py:24 | there are four directions |
| VonNeumann.DirectionsAreAxisUnits | game_2.py:24 | the four directions are distinct axis-aligned unit offsets, every such offset is among them, and as a collection they are the cross list of mode 2 in life_game_finish.py |
| VonNeumann.DirCountBound | game_2.py:20-33 | on a 0/1 board the count over the first `k` directions lies in 0..k |
| VonNeumann.Count | game_2.py:20-33 | on a 0/1 board the four-direction count lies in 0..4 |
| VonNeumann.CountTerms | game_2.py:20-33 | the count is exactly the sum of the terms for left, right, up and down, each wrapped or clamped by `wrap` |
| VonNeumann.LifeRule | game_2.py:42-43 | `step`'s rule always yields 0 or 1 |
| VonNeumann.StepGrid | game_2.py:36-43 | the next board is `n x n` and 0/1; a cell is 1 iff it was 1 with 2 or 3 neighbours or 0 with exactly 3, counted on the old board |
| VonNeumann.LifeRuleIsB3S23 | game_2.py:42-43 | on 0/1 cells `step`'s rule is the birth/survive rule with birth [3] and survive [2, 3] |
| VonNeumann.WrapCountIsCross | game_2.py:20-33 | with wrapping, the four-direction count equals the offset-list engine's count over the cross list |
| VonNeumann.WrapStepIsCrossEngine | game_2.py:36-47 | with wrapping, `step` on a 0/1 board gives the same board as `next_generation` in mode 2 of life_game_finish.py |
| VonNeumann.Life.constructor | game_2.py:6-10 | empty `n x n` board at generation 0 with the given edge policy |
| VonNeumann.Life.Clear | game_2.py:12-14 | empty board, generation 0; size and edge policy kept |
| VonNeumann.Life.Randomize | game_2.py:16-18 | the board is `n x n` and 0/1, a cell is 1 iff its draw is below `p`, and the counter is 0 |
| VonNeumann.Life.CountNeighbors | game_2.py:20-33 | the loop returns the four-direction count, wrapped or clamped by `wrap`, in 0..4 on a 0/1 board |
| VonNeumann.Life.Step | game_2.py:36-47 | the board becomes `StepGrid` of the old board; the result is true iff the board changed, and the counter goes up by 1 iff it did |
| VonNeumann.StepAtFixedPoint | game_2.py:44-47 | on a fixed point `step` returns false and keeps both the board and the counter |
| VonNeumann.BlockIsStill | game_2.py:36-47 | the 2 x 2 block is a still life with either edge policy |
| VonNeumann.WrapAndClampDiffer | game_2.py:27-32 | the two edge policies give different counts on a concrete corner cell |
| VonNeumann.LifeGUI.constructor | game_2.py:54-55 | a fresh wrapping 25 x 25 empty board at generation 0, not running |
| VonNeumann.LifeGUI.Resize | game_2.py:98-101 | a fresh wrapping empty board of the requested size replaces the old one |
| VonNeumann.LifeGUI.Random | game_2.py:103-105 | the board is randomized with `p = 0.25` |
| VonNeumann.LifeGUI.ClearBoard | game_2.py:107-110 | the run stops, the same `Life` is emptied and its counter reset |
| VonNeumann.LifeGUI.Pause | game_2.py:117-118 | the run stops; the board is untouched |
| VonNeumann.LifeGUI.StepOnce | game_2.py:120-122 | one `step`, whether running or not, with its change-dependent counter |
| VonNeumann.LifeGUI.CoordsToCell | game_2.py:147-151 | a cell is returned iff both `x // 25` and `y // 25` lie in `[0, n)`, and then the returned cell's square contains the pixel |
| VonNeumann.LifeGUI.ClickOn | game_2.py:125-130 | a pixel on the board makes exactly its cell 1; off the board nothing changes |
| VonNeumann.LifeGUI.ClickOff | game_2.py:132-137 | a pixel on the board makes exactly its cell 0; off the board nothing changes |
| VonNeumann.DivBounds | game_2.py:148-150 | with a positive cell size, `p // s` lies in `[0, n)` iff `p` lies in `[0, n*s)`, and `p` lies in the square of `p // s` |

## Left out

- The Tk user interface. This covers windows, canvases, buttons, labels and
  dialogs, `draw_grid`, `draw`, `update_display`, `_draw_all`, `_draw_cell`,
  `_update_status`, `neigh_label` and the info texts. None of it affects the
  board or the counters.
- The interactive parts of `create_neighbor_pattern` and `get_neighbor_mask`.
  The drawn pattern or mask is a parameter. `Pattern.Toggle` and
  `Pattern.Drawn` model the pattern clicks, so the centre-stays-dead property
  is proved.
- Timers, threads and sleeping. These are `start` and `run_loop` with `after`
  (life_game_finish.py), `start` and `run` on a thread (life_game2.py), the
  `while ... time.sleep` loop of `game_of_life` (life_game.py), and `_start`
  and `_loop` (game_2.py). The single step that each loop repeats is modelled.
- `after_cancel` in `pause`: the pending timer is not part of the model.
- Turning rule strings into lists with `split()` and `int()`. The parsed lists
  are parameters. In `ChooseMode` they are `Option` values, `None` where
  `int()` raises.
- The distribution of `random.random()`. The values it returned are the
  parameter `draws`.
- The setup window of `life_game.py`'s `game_of_life`, with `draw_setup` and
  `toggle_cell`. It is UI around the engine modelled in `WrapEngine`.
- `_dbl_left_clear` (game_2.py:139-145) has the same body as `_click_off`, so
  `VonNeumann.LifeGUI.ClickOff` models it.
- WrapEngine.CountNeighbors: requires a non-empty board. On an empty board with
  a non-empty offset list Python raises `ZeroDivisionError` from `%`, and the
  model does not represent that exception.
- VonNeumann.Life.CountNeighbors: requires `n > 0` when wrapping, for the same
  reason. `step` on an empty board never calls it.
- MaskEngine.GameOfLife.ToggleCell: requires an in-range cell. It is only
  called from the board's own buttons. Python's negative indices and its
  `IndexError` are not modelled.
- MaskEngine.GameOfLife.constructor: requires a mode from 1 to 3, because the
  dialog enforces that range. If the dialog is cancelled the window is
  destroyed, and that is not modelled.
- LifeAppModel.LifeApp.ApplySize: takes the spinbox value as a natural number.
  A text that `int()` rejects, and a negative size, are not modelled.
- VonNeumann.Life.constructor: takes the size as a natural number and both
  arguments explicitly. The defaults `n=30, wrap=True` (game_2.py:6) are not
  modelled as defaults; every caller in the source passes the size and relies
  on `wrap=True`, which the callers here pass. A negative `n`, which gives a
  `Life` whose `n` is negative and whose grid is `[]`, is not represented.
- VonNeumann.LifeGUI.Resize: takes the spinbox value as a natural number. A
  negative value is not modelled, and neither is text that `IntVar.get()`
  rejects, which raises before `self.life` is replaced and so changes nothing.
- VonNeumann.DirTerm: the term of one direction has no contract of its own;
  what it adds is stated through `Count`, `CountTerms` and `DirCountBound`.
