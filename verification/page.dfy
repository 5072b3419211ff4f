/**
  The controller of the current front end (www/index.js): the page state the
  subjects hold, the canvas click that toggles a cell or stamps a glider, the
  resize that rebuilds the universe only when the grid's size changes, the
  seeding that redraws everything and resets the generation count, the
  animation frame that ticks once and counts one generation, and the
  start-mode change that re-seeds. Each handler returns the squares it paints,
  in order; the screen model of the Canvas module turns them into colours.
 */
module Frontend {
  import opened Wrappers
  import opened Engine
  import opened Canvas
  import StartModeDropdown

  /** The pixel size the slider's subject starts with. */
  const PIXEL_SIZE: nat := 3

  /** The direction the radio buttons' subject starts with. */
  const INITIAL_DIRECTION: string := "UpLeft"

  /** The glider-mode subject starts true (while its checkbox is unchecked). */
  const INITIAL_GLIDER_MODE: bool := true

  /** The page's state: the universe (null before the first resize), the
      current pixel size and grid size, the selected start mode (null after
      an unrecognised dropdown string), the generation count, and the glider
      controls. */
  datatype Page = Page(
    universe: Option<Universe>,
    pixelSize: nat,
    rows: nat,
    columns: nat,
    startMode: Option<StartMode>,
    generations: nat,
    gliderMode: bool,
    gliderDirection: string)

  /** A universe exists, is well formed, and has the grid size the page holds. */
  predicate Ready(p: Page) {
    && p.universe.Some?
    && p.universe.value.Valid()
    && p.universe.value.rows == p.rows
    && p.universe.value.columns == p.columns
  }

  /** The screen shows the page's grid. */
  predicate Displays(p: Page, screen: seq<Color>) {
    Ready(p) && Shows(screen, p.universe.value.cells)
  }

  // ----- glider direction -----------------------------------------------------

  /** The value of the radio button for each direction. */
  function DirectionName(d: GliderDirection): string {
    match d
    case NW => "UpLeft"
    case NE => "UpRight"
    case SW => "DownLeft"
    case SE => "DownRight"
  }

  /** The click handler's switch: the four radio values select their
      direction, and any other string leaves the default NW. */
  function DirectionFor(name: string): (d: GliderDirection)
    ensures name != DirectionName(NE) && name != DirectionName(SW) && name != DirectionName(SE) ==> d == NW
  {
    match name
    case "UpLeft" => NW
    case "UpRight" => NE
    case "DownLeft" => SW
    case "DownRight" => SE
    case _ => NW
  }

  /** Every direction's radio value selects it, and distinct directions have
      distinct values. */
  lemma DirectionNamesRoundTrip(d: GliderDirection, e: GliderDirection)
    ensures DirectionFor(DirectionName(d)) == d
    ensures DirectionName(d) == DirectionName(e) <==> d == e
  {
    // the four values have four different lengths
  }

  // ----- canvas click ---------------------------------------------------------

  /** The engine call a click makes, if any. */
  datatype EngineCall =
    | NoCall
    | ToggleCellAt(row: nat, column: nat)
    | ToggleGliderAt(row: nat, column: nat, direction: GliderDirection)

  /** The click handler: the click selects the cell under it, a click off the
      grid is dropped, and otherwise glider mode stamps a glider (and
      `drawGlider` paints its nine cells) while point mode toggles one cell
      (and `drawCell` paints it in the colour of the returned cell). */
  function Click(p: Page, offsetX: int, offsetY: int): (r: (Page, EngineCall, seq<Paint>))
    requires Ready(p)
    ensures Ready(r.0) && r.0 == p.(universe := r.0.universe)
    ensures r.1 == NoCall <==> CellAt(offsetX, offsetY, p.pixelSize, p.rows, p.columns).None?
    ensures r.1 == NoCall ==> r.0 == p && r.2 == []
    ensures r.1 != NoCall ==>
      (r.1.row, r.1.column) == CellAt(offsetX, offsetY, p.pixelSize, p.rows, p.columns).value
    ensures r.1.ToggleGliderAt? <==> r.1 != NoCall && p.gliderMode
    ensures r.1.ToggleGliderAt? ==>
      && r.1.direction == DirectionFor(p.gliderDirection)
      && r.0.universe.value == ToggleGlider(p.universe.value, r.1.row, r.1.column, r.1.direction).0
      && r.2 == GliderPaints(ToggleGlider(p.universe.value, r.1.row, r.1.column, r.1.direction).1, p.columns)
    ensures r.1.ToggleCellAt? ==>
      && r.0.universe.value == ToggleCell(p.universe.value, r.1.row, r.1.column).0
      && r.2 == [Paint(r.1.column, r.1.row, ColorOf(ToggleCell(p.universe.value, r.1.row, r.1.column).1))]
  {
    var u := p.universe.value;
    match CellAt(offsetX, offsetY, p.pixelSize, p.rows, p.columns)
    case None => (p, NoCall, [])
    case Some((row, column)) =>
      if p.gliderMode then
        var direction := DirectionFor(p.gliderDirection);
        var (v, glider) := ToggleGlider(u, row, column, direction);
        (p.(universe := Some(v)), ToggleGliderAt(row, column, direction), GliderPaints(glider, p.columns))
      else
        var (v, cell) := ToggleCell(u, row, column);
        (p.(universe := Some(v)), ToggleCellAt(row, column), [Paint(column, row, ColorOf(cell))])
  }

  /** Repainting one square in a cell's new colour keeps the screen showing
      the grid after that cell is toggled. */
  lemma CellRepaintShowsGrid(u: Universe, row: nat, column: nat, screen: seq<Color>)
    requires u.Valid() && row < u.rows && column < u.columns && Shows(screen, u.cells)
    ensures OnGrid([Paint(column, row, ColorOf(ToggleCell(u, row, column).1))], u.columns, |screen|)
    ensures Shows(Repaint(screen, u.columns, [Paint(column, row, ColorOf(ToggleCell(u, row, column).1))]),
                  ToggleCell(u, row, column).0.cells)
  {
    var (v, cell) := ToggleCell(u, row, column);
    var paints := [Paint(column, row, ColorOf(cell))];
    var i := Index(u.columns, row, column);
    assert Target(paints[0], u.columns) == i;
    forall j | 0 <= j < |screen|
      ensures Repaint(screen, u.columns, paints)[j] == ColorOf(v.cells[j])
    {
      RepaintSquare(screen, u.columns, paints, j, ColorOf(v.cells[j]));
    }
  }

  /** A click keeps the screen showing the grid: a toggled cell is repainted
      in its new colour, and a stamped glider's nine cells are repainted
      when the grid is at least 3x3 (on smaller grids the stamp's cells
      overlap; see `EngineProps.SmallGliderInEngine`). */
  lemma ClickKeepsDisplay(p: Page, offsetX: int, offsetY: int, screen: seq<Color>)
    requires Displays(p, screen)
    requires p.gliderMode ==> 3 <= p.rows && 3 <= p.columns
    ensures OnGrid(Click(p, offsetX, offsetY).2, p.columns, |screen|)
    ensures Displays(Click(p, offsetX, offsetY).0, Repaint(screen, p.columns, Click(p, offsetX, offsetY).2))
  {
    var r := Click(p, offsetX, offsetY);
    var u := p.universe.value;
    match r.1
    case NoCall =>
      assert Repaint(screen, p.columns, []) == screen;
    case ToggleCellAt(row, column) =>
      CellRepaintShowsGrid(u, row, column, screen);
    case ToggleGliderAt(row, column, direction) =>
      GliderRepaintShowsGrid(u, row, column, direction, screen);
  }

  // ----- seeding, resizing, frames --------------------------------------------

  /** `populateUniverse`: with a universe and a start mode, seed it, redraw
      from the change codes and reset the generation count. The random draw
      is the parameter `draw`. The Reset button's callback is this function
      applied to the page's own start mode. */
  function PopulateUniverse(p: Page, mode: Option<StartMode>, draw: nat -> bool): (r: (Page, seq<Paint>))
    requires p.universe.Some? ==> p.universe.value.Valid()
    ensures r.0.universe.Some? ==> r.0.universe.value.Valid()
    ensures r.0.rows == p.rows && r.0.columns == p.columns && r.0.pixelSize == p.pixelSize
    ensures r.0.startMode == p.startMode
    ensures r.0.gliderMode == p.gliderMode && r.0.gliderDirection == p.gliderDirection
    ensures Ready(p) ==> Ready(r.0)
    ensures p.universe.Some? && mode.Some? ==>
      && r.0.universe == Some(Populate(p.universe.value, mode.value, draw))
      && r.0.generations == 0
      && r.1 == ChangedPaints(r.0.universe.value.cellsChanged, p.universe.value.rows, p.universe.value.columns)
    ensures p.universe.None? || mode.None? ==> r == (p, [])
  {
    match (p.universe, mode)
    case (Some(u), Some(m)) =>
      var v := Populate(u, m, draw);
      (p.(universe := Some(v), generations := 0), ChangedPaints(v.cellsChanged, u.rows, u.columns))
    case _ => (p, [])
  }

  /** Seeding redraws the whole grid: whatever the screen showed, it shows
      the seeded grid afterwards, and the generation count is 0. */
  lemma PopulateRedrawsAll(p: Page, mode: StartMode, draw: nat -> bool, screen: seq<Color>)
    requires Ready(p) && |screen| == p.universe.value.Size()
    ensures PopulateUniverse(p, Some(mode), draw).0.generations == 0
    ensures OnGrid(PopulateUniverse(p, Some(mode), draw).1, p.columns, |screen|)
    ensures Displays(PopulateUniverse(p, Some(mode), draw).0,
                     Repaint(screen, p.columns, PopulateUniverse(p, Some(mode), draw).1))
  {
    var u := p.universe.value;
    var v := Populate(u, mode, draw);
    assert CodesMarkAll(v.cellsChanged, v.cells) by {
      forall i | 0 <= i < |v.cellsChanged|
        ensures CodeMark(v.cellsChanged[i]) == Some(ColorOf(v.cells[i]))
      {
        assert v.cellsChanged[i] == (if v.cells[i] == Alive then NOW_ALIVE else NOW_DEAD);
      }
    }
    FullRepaintShowsGrid(screen, v.cells, v.cellsChanged, u.rows, u.columns);
  }

  /** `sizeChanged`: record the new grid size; build a new universe and seed
      it with the current start mode only when there is no universe yet or
      its size differs. */
  function SizeChanged(p: Page, rows: nat, columns: nat, draw: nat -> bool): (r: (Page, seq<Paint>))
    requires rows < U32_LIMIT && columns < U32_LIMIT && rows * columns < U32_LIMIT
    requires p.universe.Some? ==> p.universe.value.Valid()
    ensures r.0.rows == rows && r.0.columns == columns
    ensures r.0.universe.Some? && r.0.universe.value.Valid()
    ensures r.0.universe.value.rows == rows && r.0.universe.value.columns == columns
    ensures Ready(r.0)
  {
    var q := p.(rows := rows, columns := columns);
    if p.universe.None? || p.universe.value.rows != rows || p.universe.value.columns != columns then
      PopulateUniverse(q.(universe := Some(New(rows, columns))), p.startMode, draw)
    else (q, [])
  }

  /** The universe is rebuilt exactly when none existed or the size changed;
      otherwise the universe, the generation count and the screen are left
      as they were. A rebuild with a start mode redraws the whole grid. */
  lemma SizeChangedRebuildsOnlyOnChange(p: Page, rows: nat, columns: nat, draw: nat -> bool, screen: seq<Color>)
    requires rows < U32_LIMIT && columns < U32_LIMIT && rows * columns < U32_LIMIT
    requires p.universe.Some? ==> p.universe.value.Valid()
    ensures var rebuild := p.universe.None? || p.universe.value.rows != rows || p.universe.value.columns != columns;
      && (!rebuild ==> SizeChanged(p, rows, columns, draw) == (p.(rows := rows, columns := columns), []))
      && (rebuild && p.startMode.None? ==>
            SizeChanged(p, rows, columns, draw).0.universe == Some(New(rows, columns)))
      && (rebuild && p.startMode.Some? ==>
            && SizeChanged(p, rows, columns, draw).0.universe == Some(Populate(New(rows, columns), p.startMode.value, draw))
            && SizeChanged(p, rows, columns, draw).0.generations == 0)
    ensures var rebuild := p.universe.None? || p.universe.value.rows != rows || p.universe.value.columns != columns;
      rebuild && p.startMode.Some? && |screen| == rows * columns ==>
        && OnGrid(SizeChanged(p, rows, columns, draw).1, columns, |screen|)
        && Displays(SizeChanged(p, rows, columns, draw).0,
                    Repaint(screen, columns, SizeChanged(p, rows, columns, draw).1))
  {
    var rebuild := p.universe.None? || p.universe.value.rows != rows || p.universe.value.columns != columns;
    if rebuild && p.startMode.Some? && |screen| == rows * columns {
      var q := p.(rows := rows, columns := columns, universe := Some(New(rows, columns)));
      PopulateRedrawsAll(q, p.startMode.value, draw, screen);
    }
  }

  /** Window dimensions below 65536 pixels keep the grid's cell count inside
      the engine's 32-bit range. */
  const MAX_CONTAINER: nat := 0x1_0000

  /** `resizeCanvas` for a pixel size: size the canvas to the container,
      publish the grid size, and let `sizeChanged` react to it. */
  function Resize(p: Page, pixelSize: nat, containerWidth: nat, containerHeight: nat, draw: nat -> bool): (r: (Page, Layout, seq<Paint>))
    requires containerWidth < MAX_CONTAINER && containerHeight < MAX_CONTAINER
    requires p.universe.Some? ==> p.universe.value.Valid()
    ensures r.1 == ResizeCanvas(containerWidth, containerHeight, pixelSize)
    ensures r.0.pixelSize == pixelSize && r.0.rows == r.1.rows && r.0.columns == r.1.columns
    ensures r.0.rows % 2 == 0 && r.0.columns % 2 == 0
    ensures r.1.rows < U32_LIMIT && r.1.columns < U32_LIMIT && r.1.rows * r.1.columns < U32_LIMIT
    ensures Ready(r.0)
  {
    var layout := ResizeCanvas(containerWidth, containerHeight, pixelSize);
    GridFits(layout, pixelSize, containerWidth, containerHeight);
    var (q, paints) := SizeChanged(p.(pixelSize := pixelSize), layout.rows, layout.columns, draw);
    (q, layout, paints)
  }

  /** The grid computed for a container below `MAX_CONTAINER` in both
      directions fits the engine's 32-bit sizes. */
  lemma GridFits(layout: Layout, pixelSize: nat, containerWidth: nat, containerHeight: nat)
    requires containerWidth < MAX_CONTAINER && containerHeight < MAX_CONTAINER
    requires layout == ResizeCanvas(containerWidth, containerHeight, pixelSize)
    ensures layout.rows < MAX_CONTAINER && layout.columns < MAX_CONTAINER
    ensures layout.rows < U32_LIMIT && layout.columns < U32_LIMIT && layout.rows * layout.columns < U32_LIMIT
  {
    var k := pixelSize + PIXEL_BORDER_SIZE;
    MulMonotone(1, k, layout.columns);
    MulMonotone(1, k, layout.rows);
    assert layout.columns <= layout.columns * k;
    assert layout.rows <= layout.rows * k;
    MulMonotone(layout.rows, MAX_CONTAINER - 1, layout.columns);
    MulMonotone(layout.columns, MAX_CONTAINER - 1, MAX_CONTAINER - 1);
  }

  /** `renderLoop`, one frame: tick once, count one generation, and redraw
      from the change codes. */
  function RenderFrame(p: Page): (r: (Page, seq<Paint>))
    requires Ready(p)
    ensures Ready(r.0) && r.0 == p.(universe := r.0.universe, generations := r.0.generations)
    ensures r.0.generations == p.generations + 1
    ensures r.0.universe == Some(Tick(p.universe.value))
  {
    var v := Tick(p.universe.value);
    (p.(universe := Some(v), generations := p.generations + 1), ChangedPaints(v.cellsChanged, p.rows, p.columns))
  }

  /** A frame keeps the screen showing the grid: the cells with a nonzero
      code are exactly the ones whose state changed, and each is repainted in
      its new colour. */
  lemma FrameKeepsDisplay(p: Page, screen: seq<Color>)
    requires Displays(p, screen)
    ensures OnGrid(RenderFrame(p).1, p.columns, |screen|)
    ensures Displays(RenderFrame(p).0, Repaint(screen, p.columns, RenderFrame(p).1))
  {
    var u := p.universe.value;
    var v := Tick(u);
    assert CodesDescribe(v.cellsChanged, u.cells, v.cells) by {
      forall i | 0 <= i < |v.cellsChanged|
        ensures CodeMark(v.cellsChanged[i]) == (if u.cells[i] == v.cells[i] then None else Some(ColorOf(v.cells[i])))
      {
        assert ObeysB3S23(u.cells[i], NeighborsAt(u, i), v.cells[i], v.cellsChanged[i]);
      }
    }
    ChangedRepaintShowsGrid(screen, u.cells, v.cells, v.cellsChanged, p.rows, p.columns);
  }

  /** `Tick` applied `n` times. */
  function Ticks(u: Universe, n: nat): (v: Universe)
    requires u.Valid()
    ensures v.Valid() && v.SameShape(u)
    decreases n
  {
    if n == 0 then u else Ticks(Tick(u), n - 1)
  }

  /** `n` frames of the render loop. */
  function Frames(p: Page, n: nat): (r: Page)
    requires Ready(p)
    ensures Ready(r)
    ensures r.generations == p.generations + n
    ensures r.universe == Some(Ticks(p.universe.value, n))
    ensures r.rows == p.rows && r.columns == p.columns && r.startMode == p.startMode
    decreases n
  {
    if n == 0 then p else Frames(RenderFrame(p).0, n - 1)
  }

  /** The generation count is the number of ticks since the last seeding. */
  lemma GenerationsCountTicks(p: Page, mode: StartMode, draw: nat -> bool, n: nat)
    requires Ready(p)
    ensures var seeded := PopulateUniverse(p, Some(mode), draw).0;
      && Ready(seeded)
      && Frames(seeded, n).generations == n
      && Frames(seeded, n).universe == Some(Ticks(Populate(p.universe.value, mode, draw), n))
  {
  }

  /** A change of the start-mode dropdown: the subject takes the selected
      value, and only a published change re-seeds the universe. */
  function ChangeStartMode(p: Page, value: string, draw: nat -> bool): (r: (Page, seq<Paint>))
    requires p.universe.Some? ==> p.universe.value.Valid()
    ensures r.0.startMode == StartModeDropdown.Parse(value)
    ensures r.0.universe.Some? ==> r.0.universe.value.Valid()
    ensures Ready(p) ==> Ready(r.0)
    ensures StartModeDropdown.Parse(value) == p.startMode ==> r == (p, [])
    ensures StartModeDropdown.Parse(value) != p.startMode ==>
      r == PopulateUniverse(p.(startMode := StartModeDropdown.Parse(value)), StartModeDropdown.Parse(value), draw)
  {
    var c := StartModeDropdown.OnChange(p.startMode, value);
    var q := p.(startMode := c.next);
    if c.publish then PopulateUniverse(q, c.next, draw) else (q, [])
  }

  /** The page after its scripts have run: the subjects' initial values,
      then the first `resizeCanvas` and the `sizeChanged` it triggers. */
  function Init(containerWidth: nat, containerHeight: nat, draw: nat -> bool): (r: (Page, Layout, seq<Paint>))
    requires containerWidth < MAX_CONTAINER && containerHeight < MAX_CONTAINER
    ensures Ready(r.0) && r.0.generations == 0
    ensures r.0.startMode == Some(StartModeDropdown.INITIAL_MODE)
    ensures r.0.pixelSize == PIXEL_SIZE && r.1 == ResizeCanvas(containerWidth, containerHeight, PIXEL_SIZE)
    ensures r.1.rows < U32_LIMIT && r.1.columns < U32_LIMIT && r.1.rows * r.1.columns < U32_LIMIT
    ensures r.0.universe == Some(Populate(New(r.1.rows, r.1.columns), StartModeDropdown.INITIAL_MODE, draw))
  {
    var p := Page(None, PIXEL_SIZE, 0, 0, Some(StartModeDropdown.INITIAL_MODE), 0, INITIAL_GLIDER_MODE, INITIAL_DIRECTION);
    Resize(p, PIXEL_SIZE, containerWidth, containerHeight, draw)
  }
}
