# Game of Life engine — a Dafny model

This project models the core of a Game of Life simulator. The grid is infinite and can be panned.

- **Cells.** A `Cell` (module `Objects`) holds an alive/dead flag and a counter of alive neighbours. `step` applies Conway's B3/S23 rule and resets the counter.
- **Generations.** The `Engine` keeps a sparse map from grid coordinates to alive cells. `step_up` saves a copy in a history list and then runs three passes:
  1. Count neighbours, collecting the dead cells next to alive ones into a transient map.
  2. Step the alive cells and drop the ones that die.
  3. Step the dead cells and promote the ones that are born.

  `step_down` pops the history. Clearing empties the map.
- **Viewport.** Grid lines are built once from one "dimension-parametrised" formula and moved on every pan tick. Panning keeps two offsets per axis:
  - a *local* offset, which moves the lines and is wrapped back to zero at a threshold of one cell less one pixel;
  - a *global* offset, which places the cells and into which each wrap is folded.

  A pointer press maps a pixel back to a grid coordinate. The left button adds a cell there; the right button removes it.

Modules:

- `Objects` (objects.dfy): the cell as a class, with the value-level rule `Stepped` that specifies `Cell.Step`, and the draw-time screen arithmetic.
- `Life` (life.dfy): the rule on the infinite grid, `BecomesAlive`. Also `NextGeneration`, built from the alive cells and their neighbours only, with the lemma that the two agree everywhere.
- `Generation` (generation.dfy): the three passes of `step_up` as loops over maps, each with an exact contract. `Advance` composes them and is proved against `Life`.
- `Viewport` (viewport.dfy) covers:
  - the line count and centring margin;
  - the line formula and a readable reference for each kind of line;
  - the per-axis pan function `PanAxis` and its properties;
  - the key-to-movement vector;
  - the pixel-to-grid mapping.
- `GameEngine` (engine.dfy): class `Engine`, whose fields are updated in place by `StepUp`, `StepDown`, `Clear`, `PanTick` and `Click`. The invariant `Valid` is preserved by every command.

Behaviour of the code worth noting:

- **Pixel-to-grid rounding.** The code converts with `int(...)`, which rounds towards zero rather than down, so the model uses `Trunc`. Right of (and below) the global offset this equals the floor (`PixelToGridFloor`). A press on the drawn square of a cell at a negative coordinate resolves to the neighbouring cell one step closer to zero (`ClickOnDrawnCell`).
- **Which dimension is which.** In the line formula, dimension 0 yields horizontal lines and dimension 1 vertical ones (`FormulaIsGrid`). Both dimensions draw as many lines as whole cells fit across the *width*, plus one (`GridLinesShape`).
- **Reversing a pan.** Panning by some moves and then by their reversal does not always return the global offset to where it was.
  - It does when the local offset is a whole number of pixels (`PanThereAndBack`).
  - When the surface leaves an odd remainder, the centring margin is a half pixel. Then one step past the upper threshold and one step back leave the global offset half a pixel off (`PanHalfPixelDrift`).
- **Local-offset range.** The local offset reaches the wrap threshold ±(cell size − 1) and, with a half-pixel margin, half a pixel beyond it. It is only wrapped on the following tick. The model proves the open bound ±cell size (`PanKeepsLocalInBand`).
- **Cells drifting from lines.** A wrap keeps cells aligned with the lines only if the tick that wraps keeps moving the same way. Reversing on that tick moves the cells two pixels against the lines (`PanWrapAlignment`).
- **Clicks do not toggle.** The left button only adds (an existing cell is kept) and the right button only removes.

## Model

| member | source | states |
|---|---|---|
| `Objects.Stepped` | objects.py:19-27 | B3/S23: an alive cell with fewer than 2 or more than 3 neighbours dies; with 2 or 3 it survives; a dead cell is born exactly with 3; the counter is reset |
| `Objects.WithNeighbour` | objects.py:16-17 | the state is kept and the counter goes up by one |
| `Objects.Cell.constructor` | objects.py:5-11 | the drawing inset is 2, the hitbox is the given size, the drawn square is 4 pixels smaller, the counter starts at 0 |
| `Objects.Cell.AddNeighbour` | objects.py:16-17 | the cell's value becomes `WithNeighbour` of the old value |
| `Objects.Cell.Step` | objects.py:19-27 | the nested branches produce exactly `Stepped` of the old value |
| `Objects.Cell.ScreenPosition` | objects.py:31-32 | the drawn corner is the grid position times the hitbox, plus the inset, relative to the offset; with the inset of 2 on each side the drawn square lies strictly inside the hitbox of that position |
| `Objects.Cell.IsAlive` | objects.py:13-14 | the cell's alive test agrees with the test `CellValue.IsAlive` that the passes of `step_up` apply after stepping (engine.py:182, 190) |
| `Objects.Cell.IsDrawn` | objects.py:30-34 | only alive cells are drawn, and only those whose corner lies strictly within one hitbox beyond the surface on both axes (its converse for visible cells is `VisibleCellsAreDrawn`) |
| `Objects.Cell.VisibleCellsAreDrawn` | objects.py:29-36 | the visibility cull never skips an alive cell whose drawn square overlaps the surface |
| `Life.NeighbourhoodIsAdjacent` | engine.py:165-169 | the 3x3 loop without its centre visits exactly the coordinates adjacent to the cell |
| `Life.NeighbourhoodSymmetric` | engine.py:165-169 | a is a neighbour of b iff b is a neighbour of a |
| `Life.NextGenerationIsLife` | engine.py:159-191 | looking only at alive cells and their neighbours gives, at every coordinate of the infinite grid, the rule's verdict |
| `Life.BirthsAreAdjacent` | engine.py:173-176 | a newly born cell lies next to a cell alive in the previous generation |
| `Life.IsolatedCellDies` | engine.py:179-185 | an alive cell without alive neighbours is absent from the next generation |
| `Generation.VisitNeighbour` | engine.py:169-176 | one visit raises the centre's counter if the neighbour is alive, otherwise creates (if needed) and raises the neighbour's dead entry |
| `Generation.CountColumn` | engine.py:166-176 | one column (fixed x offset) of the 3x3 loop, skipping the centre, keeps the counts exact for the offsets visited so far |
| `Generation.CountAround` | engine.py:164-176 | after the loops around one cell its counter rose by its number of alive neighbours and every dead neighbour's counter by one |
| `Generation.CountNeighbours` | engine.py:162-176 | the alive cells keep their keys and each counter rose by the number of alive neighbours; the dead map holds exactly the dead coordinates with at least one alive neighbour, each with that count |
| `Generation.StepAlive` | engine.py:178-185 | exactly the cells whose stepped value is alive remain, each holding its stepped value |
| `Generation.PromoteBirths` | engine.py:187-191 | the result holds the survivors plus exactly the dead cells whose stepped value is alive |
| `Generation.Advance` | engine.py:159-191 | after the three passes a coordinate is alive iff the rule says so, the keys are `NextGeneration`, and every cell is alive with a cleared counter |
| `Viewport.LineCount` | engine.py:13 | the count is the number of whole cells that fit: count·size ≤ surface < (count+1)·size |
| `Viewport.CentreOffset` | engine.py:14-16 | the margin is half the leftover, between 0 and half a cell |
| `Viewport.FormulaLine` | engine.py:23-28 | dimension 0 gives a horizontal segment and dimension 1 a vertical one, each as long as the surface side plus one cell of margin at either end |
| `Viewport.FormulaIsGrid` | engine.py:19-26 | the formula yields, for dimension 0, the horizontal line at y = origin + k·size and, for dimension 1, the vertical one at x = origin + k·size, each one cell beyond both edges |
| `Viewport.GridLinesShape` | engine.py:19-29 | the grid is count+1 horizontal lines followed by count+1 vertical lines, in order |
| `Viewport.EvenlySpaced` | engine.py:23-26 | consecutive lines are one cell apart |
| `Viewport.BuildGridLines` | engine.py:19-29 | the nested loops append exactly the lines of `GridLines` |
| `Viewport.ShiftLine` | engine.py:121-124 | both end points move by the delta and the line keeps its extent |
| `Viewport.ShiftAll` | engine.py:121-124 | every line moves by the delta and no line is added or lost |
| `Viewport.ShiftAllTwice` | engine.py:121-124 | moving the lines twice is moving them once by the sum |
| `Viewport.ShiftAllZero` | engine.py:121-124 | moving by nothing leaves the lines unchanged |
| `Viewport.MoveVector` | engine.py:98-107 | no movement key means no pan at all; otherwise each axis is -1, 0 or 1, with up/left positive and down/right negative, and opposite keys cancel |
| `Viewport.PanAxis` | engine.py:110-118 | the lines move with the local offset; away from the thresholds both offsets take the move; at a threshold the local offset returns to zero |
| `Viewport.PanKeepsLocalInBand` | engine.py:110-118 | the local offset stays strictly within one cell of zero |
| `Viewport.PanIntegral` | engine.py:110-118 | a whole-pixel local offset in [1-size, size-1] stays so, and the global offset moves by exactly the requested amount, wrap or no wrap |
| `Viewport.PanMany` | engine.py:110-118 | after any sequence of ticks the local offset has moved by the total that the lines moved |
| `Viewport.PanManyIntegral` | engine.py:110-118 | with a whole-pixel local offset the global offset ends at its start plus the sum of the moves |
| `Viewport.PanThereAndBack` | engine.py:110-118 | with a whole-pixel local offset, any moves followed by their reversal bring the global offset back |
| `Viewport.PanHalfPixelDrift` | engine.py:110-118 | with a half-pixel local offset, one step across the upper threshold and one step back leave the global offset half a pixel off |
| `Viewport.PanGap` | engine.py:110-118 | the gap between the global and local offsets is unchanged away from thresholds and changes by move+1-size or move+size-1 at the lower or upper threshold |
| `Viewport.PanWrapAlignment` | engine.py:110-118 | continuing in the wrap direction keeps cells aligned with the lines (the gap changes by a whole cell); reversing on the wrap tick misaligns them by two pixels |
| `Viewport.Trunc` | engine.py:132-133 | conversion to int rounds towards zero: below the value for non-negative inputs, above it for negative ones, by less than one |
| `Viewport.PixelToGrid` | engine.py:132-133 | the coordinate is the cell quotient (pixel minus global offset, over the cell size) rounded towards zero: at most one below it when non-negative, at most one above it when negative |
| `Viewport.PixelToGridFloor` | engine.py:132-133 | from the global offset onwards the pointer mapping equals the floor of the cell quotient |
| `Viewport.CellQuotient` | engine.py:132-133 | a pixel strictly inside the hitbox of cell p lies strictly between p and p+1 cell sizes from the global offset |
| `Viewport.ClickInsideCell` | engine.py:132-133 | a pixel strictly inside the hitbox of cell p resolves to p when p is non-negative and to p+1 when p is negative |
| `Viewport.ClickOnDrawnCell` | engine.py:132-133 | a press on the square `Cell.ScreenPosition` places for a position resolves, on each axis, to that coordinate if non-negative and to the next one towards zero if negative |
| `GameEngine.AddCell` | engine.py:136-139 | the position becomes a key, a new entry is an alive cell with a cleared counter, and existing entries are kept |
| `GameEngine.RemoveCell` | engine.py:141-146 | the position is no longer a key and the other entries are kept; an absent position is a no-op |
| `GameEngine.RemoveUndoesAdd` | engine.py:136-146 | a right press after a left press on an empty position restores the map |
| `GameEngine.AddIdempotent` | engine.py:136-139 | pressing the left button twice on a position is the same as once |
| `GameEngine.ClicksKeepAllLive` | engine.py:136-146 | presses keep every stored cell alive with a cleared counter |
| `GameEngine.LinesFollowShift` | engine.py:110-124 | moving the lines by what the local offset moved keeps them equal to the initial grid shifted by the local offset's total travel |
| `GameEngine.PointerToGrid` | engine.py:131-133 | on each axis the coordinate under the pointer is the cell quotient relative to the global offset, rounded towards zero |
| `GameEngine.Engine.constructor` | engine.py:7-36 | all three offsets start at the centring margin, the lines are the initial grid, and the map and history are empty |
| `GameEngine.Engine.StepUp` | engine.py:159-191 | the old generation is appended to the history and the map becomes exactly the next generation; the viewport is untouched |
| `GameEngine.Engine.StepDown` | engine.py:193-196 | with history, the last saved generation is restored and removed from the history; without, nothing changes |
| `GameEngine.Engine.StepUpThenDown` | engine.py:159-196 | a step back right after a step forward restores both the generation and the history |
| `GameEngine.Engine.Clear` | engine.py:86-87 | the map becomes empty and the history is kept |
| `GameEngine.Engine.ShiftGridLines` | engine.py:120-124 | the loop moves every line by the delta and changes nothing else |
| `GameEngine.Engine.PanTick` | engine.py:93-124 | with no movement key nothing changes; otherwise each axis is panned by `PanAxis` and the lines move by the amounts applied; the invariant (local offset within a cell, lines = initial grid shifted by the local offset's travel) is kept |
| `GameEngine.Engine.Click` | engine.py:127-146 | the left button adds the cell under the pointer, otherwise the right button removes it, at the coordinate given by the global offset |

## Left out

- Window creation, the event loop and its timers, the frame-rate cap, the pause/resume, render and quit flags: these are input/output around the core. `Engine.run` is not part of this model beyond the commands it dispatches.
- Drawing: `Engine.render` and the pygame calls in `Cell.draw` are not modelled. Only the corner arithmetic and the visibility test of `Cell.draw` are (`Cell.ScreenPosition`, `Cell.IsDrawn`).
- Default arguments: `Engine(cell_size=40)` and `Cell(size, state=False)` have defaults in the source; here both parameters are always passed.
- Surface size: it is read from the display in the source and is a constructor parameter here. The cell size must be positive, since the source divides by it.
- Pointer polling: the mouse buttons are polled on every event in the source. Here `Engine.Click` is one poll, with the pointer position and the two button flags as parameters.
- Engine map contents: it stores cell values (state and counter), not `Cell` objects. Every cell the engine creates shares the engine's cell size, so the size fields carry no information there.
- Copying and aliasing: the history stores values, so the `deepcopy` on saving and any aliasing between the history and the live map are not modelled.
- The unused `check` tuple of neighbour directions (engine.py:35) is not modelled.
- Floating point: offsets are exact reals. The source's values are integers and half-integers, which Python floats represent exactly at screen magnitudes.
- Map iteration order: dictionary iteration is modelled as picking any remaining key. The passes' results do not depend on the order.
