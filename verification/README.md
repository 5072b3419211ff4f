# rust_life in Dafny

rust_life is Conway's Game of Life with a WebAssembly engine written in Rust and
a browser front end. This project models the engine and the front-end logic
that decides what gets drawn, and proves properties about them.

## What is modelled

**The engine (`src/lib.rs`).** Modules `Engine` (engine.dfy) and `EngineProps`
(engine_props.dfy).
- A `Universe` holds `rows * columns` cells, stored row-major on a torus.
- It has a second buffer that `tick` writes into and then swaps with the first.
- It has a per-cell change code: 0 unchanged, 1 now dead, 2 now alive.
- The model covers `get_index`, the wrapped neighbour count, `tick` and `toggle_cell`.
- It covers `toggle_glider` with its four patterns and its wrapped 3x3 stamp.
- It covers `populate` (Blank or Random) and `new`.
- `tick` is modelled twice: as a function stating the B3/S23 rule cell by cell, and as a method with the source's row and column loops. The method is proved to compute the same universe.

**Drawing (`www/index.js`).** Module `Canvas` (canvas.dfy).
- Cell squares and canvas geometry.
- Mapping a click to a cell.
- The even-sized grid computed by `resizeCanvas`.
- Decoding a flat index in `drawGlider`.
- The two-pass redraws (a dead pass, then an alive pass) of `drawCells` and `drawGlider`.
- A screen model: `Repaint` turns a list of painted squares into the colours on screen, a later paint covering an earlier one.
- The main theorems say that a screen showing the grid still shows it after each redraw.

**The current page controller (`www/index.js`).** Module `Frontend` (page.dfy).
- Clicks, which toggle a cell or stamp a glider.
- `sizeChanged`, which rebuilds only on a size change.
- `populateUniverse`, which seeds and fully redraws.
- `renderLoop` frames and the generation counter.
- Start-mode changes.

**The stale root front end (`index.js`).** Module `LegacyFrontend` (legacy_page.dfy).
- Its `drawCells` selects cells by code and splits them by state.
- Its slider, dropdown and reset handlers.
- Its frame counter.

**The button state machine (`buttons.js`).** Module `Buttons` (buttons.dfy).

**The start-mode dropdown (`www/startMode.js`).** Module `StartModeDropdown` (start_mode.dfy).

`Wrappers` (wrappers.dfy) holds `Option`.

### Where the code's behaviour is easy to misread

The model follows the code in each of these cases.

- `toggle_glider` does not reject a stamp that crosses the edge. It wraps the stamp around the torus (src/lib.rs:222-229). See `EngineProps.GliderIndexesOnTorus`.
- `toggle_glider` assigns the nine pattern cells rather than flipping them, so stamping twice equals stamping once (`EngineProps.ToggleGliderIdempotent`).
- Neither toggle writes `cells_changed`. `Engine.ToggleCell` and `Engine.ToggleGlider` both ensure it is unchanged.
- A stamp changes nine distinct cells only on grids of at least 3x3. On smaller grids the stamp's rows or columns coincide:
  - The engine keeps the last value written to a cell.
  - `drawGlider` paints all Alive entries after all Dead ones.
  - So the screen can disagree with the grid. `EngineProps.SmallGliderInEngine` and `Canvas.SmallGliderOnScreen` exhibit this on a 2x4 grid.
  - `Frontend.ClickKeepsDisplay` therefore needs 3x3 for glider clicks.
- The root `index.js` is out of step with the engine:
  - It calls `Universe.new(rows, columns, startMode)`. The engine's constructor takes two arguments, so the mode is ignored and the universe is all Dead with every code 0.
  - Its `drawCells` starts by calling `universe.cells()` (index.js:51). The engine's `Universe` exports no `cells` method; the only `cells()` belongs to `Glider` (src/lib.rs:60). As written, every call of the root `drawCells` therefore throws a TypeError before it paints anything. The model reads that call as the engine's current cells (see "## Left out").
  - With all codes 0, every rebuild in the root page paints nothing (`LegacyFrontend.RebuildPaintsNothing`). After a dropdown or Reset rebuild the canvas keeps its old picture over an empty grid. The slider rebuild first runs `resizeCanvas`, whose writes to `canvas.width` and `canvas.height` (index.js:36-37) clear the canvas (see "Canvas clearing" under "## Left out").

## Model

| member | source | states |
|---|---|---|
| Engine.New | src/lib.rs:271-283 | A new universe is well formed, with all three buffers of length rows*columns, every cell Dead, every next-buffer cell Dead and every change code 0 |
| Engine.Index | src/lib.rs:92-94 | get_index, row*columns+column with no bounds check; `Engine.IndexInBounds`, `EngineProps.IndexRoundTrip` and `EngineProps.IndexInjective` show it is a bijection from in-bounds pairs onto the buffer |
| Engine.Universe.Size | src/lib.rs:84-86 | size(), rows*columns; `Engine.New` and `Engine.Universe.Valid` make it the length of all three buffers |
| Engine.IndexInBounds | src/lib.rs:92-94 | For row < rows and column < columns, get_index is below rows*columns |
| EngineProps.IndexRoundTrip | src/lib.rs:92-94 | An in-bounds index decodes back to its row (index / columns) and column (index % columns) |
| EngineProps.IndexInjective | src/lib.rs:92-94 | Two in-bounds pairs have the same index exactly when they are the same pair |
| EngineProps.AroundIsWrap | src/lib.rs:99-113 | The explicit edge tests for north/south/west/east equal the modular step (i + d + n) % n on a ring of n |
| Engine.Prev | src/lib.rs:99-113 | The wrapped north/west (and the glider's up/left) step stays on the ring; `EngineProps.AroundIsWrap` shows it equals (i - 1 + n) % n |
| Engine.Next | src/lib.rs:99-113 | The wrapped south/east (and the glider's down/right) step stays on the ring; `EngineProps.AroundIsWrap` shows it equals (i + 1) % n |
| Engine.LiveNeighborCount | src/lib.rs:96-140 | The neighbour count is at most 8 |
| EngineProps.LiveNeighborCountOnTorus | src/lib.rs:96-140 | The count equals an independent count of Alive cells at the eight torus offsets, each coordinate reduced modulo the grid size |
| Engine.Rule | src/lib.rs:149-162 | The three match arms: the next state is Alive exactly with 3 live neighbours, or with 2 on a live cell; the code is nonzero exactly on a change, 2 for a birth and 1 for a death |
| Engine.Tick | src/lib.rs:142-167 | Every cell follows B3/S23 from the pre-step grid; the code is nonzero exactly when the state changed, 2 exactly for a birth and 1 exactly for a death; the old grid ends up in the second buffer |
| Engine.TickByRows | src/lib.rs:142-167 | The source's nested row/column loops followed by the buffer swap compute exactly `Tick` |
| Engine.Cell.Toggle | src/lib.rs:65-72 | The toggled cell differs from the original, so with two states it is the other one; `EngineProps.ToggleCellTwice` shows two toggles restore a universe |
| Engine.ToggleCell | src/lib.rs:169-173 | Only the cell at row*columns+column changes, it is flipped, its new value is returned, and both other buffers are untouched |
| EngineProps.ToggleCellTwice | src/lib.rs:65-72 | Toggling the same cell twice restores the universe |
| Engine.GliderIndexes | src/lib.rs:222-241 | The nine stamp indexes are all inside the grid |
| EngineProps.GliderIndexesOnTorus | src/lib.rs:222-241 | Stamp position k is the cell at row offset k/3-1 and column offset k%3-1 from (row, column), wrapped modulo the grid size, in row-major order from the top left |
| EngineProps.GliderIndexesDistinct | src/lib.rs:230-241 | With at least 3 rows and 3 columns the nine indexes are pairwise distinct |
| Engine.WriteCells | src/lib.rs:242-245 | Writing values at indexes in order keeps every unwritten entry and leaves each index holding the last value written there |
| Engine.ToggleGlider | src/lib.rs:175-247 | The pattern of the direction is written at the wrapped 3x3 indexes (last write wins) and returned with those indexes; other cells and the other buffers are unchanged |
| EngineProps.ToggleGliderIdempotent | src/lib.rs:242-245 | Stamping twice at the same place and direction gives the same universe and glider as stamping once |
| Engine.Pattern | src/lib.rs:176-221 | Each direction's 3x3 pattern has nine cells; `EngineProps.GliderHasFiveLiveCells` shows five of them are Alive |
| EngineProps.GliderHasFiveLiveCells | src/lib.rs:176-221 | Every one of the four patterns has exactly five Alive cells |
| Engine.Populate | src/lib.rs:249-269 | Blank makes every cell Dead with code 1; Random makes cell i Alive exactly when the draw says so; every code is 2 on an Alive cell and 1 on a Dead one |
| EngineProps.PopulateCanProduceAnyGrid | src/lib.rs:250-260 | For every grid of the right size, some sequence of draws makes Random seeding produce it |
| Canvas.CellAt | www/index.js:40-46 | A click is dropped exactly when it lies left of, above, right of or below the grid area; otherwise the selected cell is in bounds and the click lies in its band |
| Canvas.ClickOnSquareSelectsCell | www/index.js:42-43 | A click on any pixel of a cell's square selects that cell |
| Canvas.CellSquare | www/index.js:167-172 | The square drawCell fills; `Canvas.SquareInsideCanvas`, `Canvas.SquaresDisjoint` and `Canvas.ClickOnSquareSelectsCell` show the squares lie inside the canvas, never overlap, and select their own cell when clicked |
| Canvas.SquareInsideCanvas | www/index.js:167-172 | Every in-bounds cell's square lies inside the canvas of (p+1)*columns+1 by (p+1)*rows+1 pixels |
| Canvas.SquaresDisjoint | www/index.js:167-172 | Squares of distinct cells share no pixel |
| Canvas.CanvasExtent | www/index.js:108-109 | The canvas side for n cells; `Canvas.SquareInsideCanvas` shows every cell square lies inside it and `Canvas.ResizeCanvas` gives it as the canvas size |
| Canvas.ResizeCanvas | www/index.js:102-112 | Rows and columns are even and are the largest even counts whose cells fit the container; the canvas is (p+1)*n+1 pixels in each direction |
| Canvas.EvenFit | www/index.js:105-106 | 2*floor(extent/k/2) is even and n*k <= extent < (n+2)*k |
| Canvas.DecodeIndex | www/index.js:83-85 | The decoded column is below columns and re-encoding the pair gives the index back |
| Canvas.DecodeInvertsIndex | www/index.js:83-85 | Decoding get_index(row, column) gives (row, column) |
| Canvas.Pass | www/index.js:140-150 | One pass paints at most one square per visited cell, all in its colour; `Canvas.PassPaintsMarked` shows it paints exactly the cells marked with that colour |
| Canvas.TwoPass | www/index.js:140-163 | The dead pass followed by the alive pass; `Canvas.TwoPassPermutesMarked` and `Canvas.TwoPassDeadFirst` show it paints each marked cell once, dead ones first |
| Canvas.PassPaintsMarked | www/index.js:140-150 | A pass paints a square in its colour exactly when the visited cell is marked with that colour |
| Canvas.TwoPassPermutesMarked | www/index.js:81-99 | The two passes paint exactly the marked cells, each once: a permutation of them |
| Canvas.TwoPassDeadFirst | www/index.js:140-163 | No dead paint follows an alive paint |
| Canvas.RepaintSquare | www/index.js:167-172 | An unpainted square keeps its colour; a square all of whose paints have one colour ends in that colour |
| Canvas.ChangedPaints | www/index.js:133-165 | drawCells' two passes; `Canvas.ChangedPaintsExact` shows it paints a cell dead exactly on code 1 and alive exactly on code 2, and `Canvas.ChangedRepaintShowsGrid` that it keeps the screen in step with a tick |
| Canvas.ChangedPaintsExact | www/index.js:133-165 | drawCells paints a cell dead exactly when its code is 1 and alive exactly when its code is 2, never a code-0 cell, nothing off the grid |
| Canvas.ChangedRepaintShowsGrid | www/index.js:133-165 | If the codes describe the change from the old grid to the new, a screen showing the old grid shows the new one after drawCells |
| Canvas.FullRepaintShowsGrid | www/index.js:114-121 | When every code marks its cell's state, drawCells makes any screen show the grid |
| Canvas.GliderPaints | www/index.js:74-100 | drawGlider's two passes; `Canvas.GliderPaintsEachEntryOnce` shows it paints each of the nine entries once, Dead ones first, and `Canvas.GliderRepaintShowsGrid` that on grids of at least 3x3 the screen shows the stamped grid |
| Canvas.GliderPaintsEachEntryOnce | www/index.js:74-100 | drawGlider paints each of the nine returned entries exactly once, at its decoded square and in its cell's colour, Dead ones first |
| Canvas.GliderPaintsAreEntries | www/index.js:74-100 | Every glider paint is one of the entries, and every entry is painted |
| Canvas.GliderRepaintShowsGrid | www/index.js:64-65 | On a grid of at least 3x3, a screen showing the grid shows the stamped grid after drawGlider |
| Canvas.GliderAliveEntryWins | www/index.js:91-99 | A square covered by any Alive entry of the glider ends alive, whatever else is written there |
| EngineProps.SmallGliderInEngine | src/lib.rs:222-245 | NW at (0, 1) on a 2x4 grid stamps indexes 4,5,6,0,1,2,4,5,6 and the engine leaves cell 4 Dead |
| Canvas.SmallGliderOnScreen | www/index.js:81-99 | For that glider, drawGlider leaves square 4 in the alive colour, so screen and grid disagree |
| Frontend.DirectionFor | www/index.js:48-63 | Any string other than the four radio values selects NW |
| Frontend.DirectionNamesRoundTrip | www/index.js:50-62 | Each direction's radio value selects that direction, and distinct directions have distinct values |
| Frontend.Click | www/index.js:36-72 | No engine call exactly when the click is off the grid; otherwise exactly one call, toggle_glider with the selected direction in glider mode and toggle_cell otherwise, painting the stamp or one square in the returned cell's colour |
| Frontend.CellRepaintShowsGrid | www/index.js:68-70 | Painting the toggled cell in its returned colour keeps the screen showing the grid |
| Frontend.ClickKeepsDisplay | www/index.js:64-71 | A click keeps the screen showing the grid (glider clicks on grids of at least 3x3) |
| Frontend.PopulateUniverse | www/index.js:114-121 | With a universe and a mode, the universe is seeded, the generation count becomes 0 and the redraw comes from the new codes; otherwise nothing changes |
| Frontend.PopulateRedrawsAll | www/index.js:114-121 | After seeding, any screen of the grid's size shows the seeded grid |
| Frontend.SizeChanged | www/index.js:123-131 | The page takes the new size and always ends with a well-formed universe of that size |
| Frontend.SizeChangedRebuildsOnlyOnChange | www/index.js:126-130 | The universe is rebuilt and re-seeded exactly when none exists or its size differs; otherwise nothing but the recorded size changes; a rebuild redraws every cell |
| Frontend.Resize | www/index.js:102-112 | The grid size passed to sizeChanged is the even layout of the container, and the page ends ready |
| Frontend.RenderFrame | www/index.js:176-189 | A frame ticks once and raises the generation count by exactly 1 |
| Frontend.FrameKeepsDisplay | www/index.js:180-185 | A frame keeps the screen showing the grid |
| Frontend.Frames | www/index.js:176-189 | n frames raise the generation count by n and tick the universe n times |
| Frontend.GenerationsCountTicks | www/index.js:119 | After seeding, the generation count is the number of ticks since |
| Frontend.ChangeStartMode | www/index.js:29 | The selected value becomes the mode; only a changed value re-seeds the universe |
| Frontend.Init | www/index.js:17-30 | The page starts ready, with the Random start mode, generation count 0 and a seeded universe of the computed size |
| LegacyFrontend.LegacyPaints | index.js:50-99 | The root drawCells' two passes, read with `universe.cells()` as the current grid; `LegacyFrontend.LegacyPaintsExact` shows it paints the nonzero-code cells by state, dead first, and `LegacyFrontend.LegacyAgreesWithCurrent` that it matches the current redraw |
| LegacyFrontend.LegacyPaintsExact | index.js:50-99 | The dead pass paints exactly the cells with a nonzero code that are Dead; the alive pass those with a nonzero code that are Alive |
| LegacyFrontend.LegacyAgreesWithCurrent | index.js:60-96 | When every code is 0, 1 on a Dead cell or 2 on an Alive one, the root redraw paints what the current redraw paints, in the same order |
| LegacyFrontend.LegacyAgreesAfterTick | index.js:120-124 | After a tick the two redraws coincide |
| LegacyFrontend.RebuildPaintsNothing | index.js:163-164 | The redraw after building a new universe paints nothing |
| LegacyFrontend.LegacyInit | index.js:42-44 | The root page starts with even rows and columns of the pixel-size-3 layout, Blank mode, generation 0 and an all-Dead universe |
| LegacyFrontend.LegacyFrame | index.js:116-127 | A frame ticks once and raises generations by 1 |
| LegacyFrontend.LegacyFrameKeepsScreen | index.js:116-127 | A frame keeps the screen showing the grid |
| LegacyFrontend.LegacySlider | index.js:129-138 | A slider change takes the new pixel size and layout and always rebuilds, keeping the generation count |
| LegacyFrontend.LegacyDropdown | index.js:151-166 | An unknown string keeps the mode; the universe is rebuilt exactly when the mode changed |
| LegacyFrontend.LegacyDropdownRebuildsOnlyOnChange | index.js:153-165 | Choosing a mode's option rebuilds exactly when it differs from the current mode; an unknown string changes nothing |
| LegacyFrontend.LegacyReset | index.js:216-235 | Reset zeroes generations and rebuilds the universe, and nothing is painted |
| LegacyFrontend.RootHandleAsWritten | index.js:170-236 | As written, Stop equals `Buttons.Handle(Stop)`; Start makes Handle's changes except hiding itself and showing Stop; Resume changes nothing; Reset only hides the generation text |
| LegacyFrontend.RootStartBreaksConsistency | index.js:173-182 | From any consistent page with Start shown, the root Start as written leaves Start shown and the slider hidden, outside `Buttons.Consistent` |
| Buttons.Handle | buttons.js:13-40 | Start fires startLoop, hides start, slider and dropdown, and shows stop and the text. Stop fires stopLoop, hides stop and shows resume and reset, leaving the text. Resume fires startLoop, hides resume and reset and shows stop. Reset fires resetUniverse, hides reset, resume and the text and shows start, dropdown and slider |
| Buttons.Press | buttons.js:13-40 | A hidden button fires nothing; a visible one runs its handler |
| Buttons.Clicks | buttons.js:13-40 | A run of clicks fires at most one callback per click; `Buttons.ClicksKeepConsistent` shows every run keeps the buttons consistent and the loop in step with Stop |
| Buttons.ClicksKeepConsistent | buttons.js:13-40 | Any run of clicks keeps exactly one of start/stop/resume visible and reset visible exactly with resume, starts the loop only while stopped and stops it only while running |
| Buttons.ClicksFromInitial | buttons.js:13-40 | From the reset state with stop hidden, every run of clicks leaves exactly one of start/stop/resume visible, reset with resume, and the loop running exactly while stop is visible |
| StartModeDropdown.Label | www/startMode.js:7-14 | The option string shown for the initial mode; `StartModeDropdown.LabelRoundTrip` shows the two labels differ and parse back to their modes |
| StartModeDropdown.Parse | www/startMode.js:21-28 | Exactly "Blank" and "Random" select a mode, each the one whose label it is |
| StartModeDropdown.LabelRoundTrip | www/startMode.js:7-14 | The label shown for a mode reads back as that mode, and the two labels differ |
| StartModeDropdown.OnChange | www/startMode.js:17-32 | The subject takes the selected value (null for an unknown string) and publishes exactly when it differs from the current value |
| StartModeDropdown.ReselectIsSilent | www/startMode.js:29-31 | Re-selecting the current mode publishes nothing and changes nothing |
| StartModeDropdown.Published | www/startMode.js:29-31 | The values subscribers see for a run of change events; `StartModeDropdown.PublishedNeverRepeats` and `StartModeDropdown.PublishedEndsWithHeld` show none repeats its predecessor and the last is the held value |
| StartModeDropdown.PublishedNeverRepeats | www/startMode.js:29-31 | Over any run of changes, the first published value differs from the starting value and no value is published twice in a row |
| StartModeDropdown.Held | www/startMode.js:17-32 | After a run of changes the subject holds the last selected value |
| StartModeDropdown.PublishedEndsWithHeld | www/startMode.js:17-32 | The last published value is the one held at the end of the run |

## Left out

- Engine.ToggleCell: requires an in-bounds row and column. The source computes row*columns+column and only panics past the end of the buffer, so a column beyond the grid would reach a cell of the next row. The front end never passes such a pair.
- Engine.ToggleGlider: requires an in-bounds row and column, for the same reason.
- Engine.Populate: the random draw (an `f32` uniform value compared with 0.1) is the parameter `draw`, which says for each cell whether it is born.
- Engine.Valid: rows, columns and their product must fit in 32 bits; `u32` wrap-around in `rows * columns` is not modelled. `Frontend.Resize` requires container sides below 65536 pixels so that this holds.
- wasm-bindgen raw addresses and `memory.buffer` views: the engine's buffers and the glider's arrays are returned as sequences.
- The engine's getters `rows()`, `columns()` and `cells_changed()` are the datatype's fields.
- The Canvas 2D context: fill styles, `beginPath`/`stroke` and pixel rendering are replaced by lists of painted squares and a two-colour screen.
- Canvas clearing: setting the canvas width or height clears it. This is not modelled. A resize that keeps the grid size therefore appears here as leaving the picture intact.
- rxjs subjects and `fromEvent`: they are page fields and direct calls, with synchronous delivery.
- `requestAnimationFrame` scheduling: one frame is one `RenderFrame` call. Whether the loop runs is `Buttons.Session.looping`.
- Floating point: the container size is a natural number (its whole-pixel part, which gives the same floors). The click offsets (www/index.js:40-46) are integers for the same reason: for a positive whole divisor k, floor(x / k) equals floor(floor(x) / k), so a fractional offset selects the same cell as its whole-pixel part. The slider's `parseInt` is a natural-number parameter.
- LegacyFrontend.LegacyFrame: the root `renderLoop` as written ticks and raises the generation count (index.js:120-122), then throws a TypeError at `universe.cells()` (index.js:51) inside `drawCells` (index.js:124). So it paints nothing and never reaches `requestAnimationFrame` (index.js:125). The model reads that call as the engine's current cells, so its paints are the redraw the page would make if the call returned the grid.
- LegacyFrontend.LegacyFrameKeepsScreen: the repaint it proves holds only under that same reading of `universe.cells()`. As written, no frame paints anything and the loop stops after its first frame.
- LegacyFrontend.LegacyPaints, LegacyFrontend.LegacyPaintsExact, LegacyFrontend.LegacyAgreesWithCurrent, LegacyFrontend.LegacyAgreesAfterTick: the root `drawCells` (index.js:50-99) as written throws at `universe.cells()` (index.js:51) before either pass runs. The paints these members describe, and their agreement with the current redraw, hold only when that call is read as the engine's current cells.
- LegacyFrontend.LegacySlider, LegacyFrontend.LegacyDropdown, LegacyFrontend.LegacyReset: these call `drawCells` after their rebuild, so as written they throw there. Their promises still hold as written: the rebuild happens before the throw, and nothing is painted, which is what the model states.
- Stats and timing (statsInit.js, `start`/`end`, index.js:101-111), generationsText.js, slider.js, `hide`/`unhide` and webpack configuration: these are DOM wiring or build configuration.
- gliderControl.js: radio and checkbox wiring. The page's direction string and glider flag are set directly. The initial values are "UpLeft" and `true`; the checkbox starts unchecked while the flag is `true`.
- Frontend.PopulateUniverse: a null start mode leaves the page unchanged. What the engine would do with null across the wasm boundary is not modelled. A missing universe also leaves the page unchanged, where the source would throw. The `universe.ptr !== 0` test always passes here, because the model never frees a universe.
- Frontend.ClickKeepsDisplay: glider clicks are covered only on grids of at least 3x3. On smaller ones the display can be wrong (see the small-glider lemmas).
- The root index.js button handlers (index.js:170-236) are modelled, for the session invariant, in `Buttons`. Stop makes the same visibility changes as buttons.js. Start, Resume and Reset make them all only under the reading of `universe.cells()` given above. As written, `LegacyFrontend.RootHandleAsWritten` models what happens; see "## Findings".
  - Start shows the generation text and hides the dropdown and slider (index.js:173-177). It then calls `renderLoop` (index.js:178), which throws inside `drawCells`, so Start is never hidden and Stop is never shown (index.js:180-182).
  - Resume calls `renderLoop` first (index.js:205), so none of its changes (index.js:207-211) happen.
  - Reset sets the generation count to 0, hides the generation text (index.js:219-220) and rebuilds the universe before the throw at index.js:222. Its other changes (index.js:224-233) never happen. The root `getIndex` (index.js:46-48) is `Engine.Index`. The root `resizeCanvas` (index.js:30-40) is `Canvas.ResizeCanvas` with a border of 1.
- The root page's Start and Resume buttons call `renderLoop` directly: that is one `LegacyFrame` step, and as written the last one. The root Stop button's `cancelAnimationFrame` is the `StopLoop` callback of `Buttons.Handle(Stop)`.

## Findings

| source | as written | input that shows it | evidently intended | confidence | as-written member | corrected member |
|---|---|---|---|---|---|---|
| index.js:51, index.js:178 | The root `drawCells` calls `universe.cells()`, which the engine's `Universe` does not export (src/lib.rs:75-90), so it throws. The Start handler calls it through `renderLoop` before hiding Start and showing Stop | A click on the root Start button from the initial page | The handlers of buttons.js, which make every visibility change and keep Start, Stop and Resume mutually exclusive | high; not executed | LegacyFrontend.RootStartBreaksConsistency | Buttons.ClicksKeepConsistent |
