/**
  The older front end at the repository's root (index.js). It keeps its own
  page variables instead of subjects, starts in Blank mode, and calls the
  engine with an interface the engine no longer has: it passes a start mode
  as a third argument to `Universe.new`, which the two-argument constructor
  ignores, and it reads the cells through `universe.cells()`, which the
  engine's `Universe` does not export. The model gives the cells read there
  the engine's current grid. Its redraw selects the cells with a nonzero
  change code and splits them by state rather than by code.
 */
module LegacyFrontend {
  import opened Wrappers
  import opened Engine
  import opened Canvas
  import StartModeDropdown
  import Frontend
  import Buttons

  /** The page variables: pixel size, grid size, start mode, universe and
      generation count. */
  datatype LegacyPage = LegacyPage(
    pixelSize: nat,
    rows: nat,
    columns: nat,
    startMode: StartMode,
    universe: Universe,
    generations: nat)

  predicate Ready(p: LegacyPage) {
    p.universe.Valid() && p.universe.rows == p.rows && p.universe.columns == p.columns
  }

  /** The cells the root `drawCells` visits, row by row: a cell with code 0
      is skipped, any other goes to the pass of its current state. */
  function LegacySpots(cells: seq<Cell>, codes: seq<Byte>, rows: nat, columns: nat): (s: seq<Spot>)
    requires |codes| == rows * columns && |cells| == |codes|
    ensures |s| == |codes|
  {
    seq(|codes|, i requires 0 <= i < |codes| =>
      Spot(i % columns, i / columns, if codes[i] == UNCHANGED then None else Some(ColorOf(cells[i]))))
  }

  /** The root `drawCells`: the changed Dead cells in the dead colour, then
      the changed Alive cells in the alive colour. */
  function LegacyPaints(cells: seq<Cell>, codes: seq<Byte>, rows: nat, columns: nat): seq<Paint>
    requires |codes| == rows * columns && |cells| == |codes|
  {
    TwoPass(LegacySpots(cells, codes, rows, columns))
  }

  /** The root `drawCells` paints a cell in the dead colour exactly when its
      code is nonzero and it is Dead, in the alive colour exactly when its
      code is nonzero and it is Alive, and nothing off the grid. */
  lemma LegacyPaintsExact(cells: seq<Cell>, codes: seq<Byte>, rows: nat, columns: nat)
    requires |codes| == rows * columns && |cells| == |codes|
    ensures forall p :: p in LegacyPaints(cells, codes, rows, columns) ==>
      p.row < rows && p.column < columns && GridAt(codes, rows, columns, p.row, p.column) != UNCHANGED
    ensures forall row: nat, column: nat :: row < rows && column < columns ==>
      ((Paint(column, row, DeadColor) in LegacyPaints(cells, codes, rows, columns))
         <==> GridAt(codes, rows, columns, row, column) != UNCHANGED && GridAt(cells, rows, columns, row, column) == Dead)
    ensures forall row: nat, column: nat :: row < rows && column < columns ==>
      ((Paint(column, row, AliveColor) in LegacyPaints(cells, codes, rows, columns))
         <==> GridAt(codes, rows, columns, row, column) != UNCHANGED && GridAt(cells, rows, columns, row, column) == Alive)
  {
    var spots := LegacySpots(cells, codes, rows, columns);
    var paints := LegacyPaints(cells, codes, rows, columns);
    forall p | p in paints
      ensures p.row < rows && p.column < columns && GridAt(codes, rows, columns, p.row, p.column) != UNCHANGED
    {
      PassPaintsMarked(spots, p.color, p);
      var i :| 0 <= i < |spots| && spots[i] == Spot(p.column, p.row, Some(p.color));
      FlatIndexBounds(rows, columns, i);
    }
    forall row: nat, column: nat, color: Color | row < rows && column < columns
      ensures Paint(column, row, color) in paints
          <==> GridAt(codes, rows, columns, row, column) != UNCHANGED && ColorOf(GridAt(cells, rows, columns, row, column)) == color
    {
      var i := Index(columns, row, column);
      EngineProps.IndexRoundTrip(rows, columns, row, column);
      assert spots[i].row == row && spots[i].column == column;
      PassPaintsMarked(spots, color, Paint(column, row, color));
      if Spot(column, row, Some(color)) in spots {
        var k :| 0 <= k < |spots| && spots[k] == Spot(column, row, Some(color));
        FlatIndexBounds(rows, columns, k);
        EngineProps.IndexInjective(columns, row, column, k / columns, k % columns);
      }
    }
  }

  /** The codes are ones `tick` or `populate` can leave: 0, or 1 on a Dead
      cell, or 2 on an Alive one. */
  predicate CodesAgree(codes: seq<Byte>, cells: seq<Cell>) {
    |cells| == |codes|
    && forall i :: 0 <= i < |codes| ==>
      || codes[i] == UNCHANGED
      || (codes[i] == NOW_DEAD && cells[i] == Dead)
      || (codes[i] == NOW_ALIVE && cells[i] == Alive)
  }

  /** When the codes agree with the cells, the root redraw paints exactly
      what the current front end's redraw paints, in the same order. */
  lemma LegacyAgreesWithCurrent(cells: seq<Cell>, codes: seq<Byte>, rows: nat, columns: nat)
    requires |codes| == rows * columns && CodesAgree(codes, cells)
    ensures LegacyPaints(cells, codes, rows, columns) == ChangedPaints(codes, rows, columns)
  {
    assert LegacySpots(cells, codes, rows, columns) == ChangeSpots(codes, rows, columns);
  }

  /** After a tick the two redraws coincide. */
  lemma LegacyAgreesAfterTick(u: Universe)
    requires u.Valid()
    ensures LegacyPaints(Tick(u).cells, Tick(u).cellsChanged, u.rows, u.columns)
         == ChangedPaints(Tick(u).cellsChanged, u.rows, u.columns)
  {
    var v := Tick(u);
    assert CodesAgree(v.cellsChanged, v.cells) by {
      forall i | 0 <= i < |v.cellsChanged|
        ensures || v.cellsChanged[i] == UNCHANGED
                || (v.cellsChanged[i] == NOW_DEAD && v.cells[i] == Dead)
                || (v.cellsChanged[i] == NOW_ALIVE && v.cells[i] == Alive)
      {
        assert ObeysB3S23(u.cells[i], NeighborsAt(u, i), v.cells[i], v.cellsChanged[i]);
      }
    }
    LegacyAgreesWithCurrent(v.cells, v.cellsChanged, u.rows, u.columns);
  }

  /** A pass over cells none of which is marked paints nothing. */
  lemma PassOfUnmarked(spots: seq<Spot>, color: Color)
    requires forall k :: 0 <= k < |spots| ==> spots[k].mark.None?
    ensures Pass(spots, color) == []
  {
    if |Pass(spots, color) | > 0 {
      var p := Pass(spots, color)[0];
      PassPaintsMarked(spots, color, p);
      assert false;
    }
  }

  /** A freshly built universe has every code 0, so the root redraw after a
      rebuild paints nothing and the canvas keeps its old picture. */
  lemma RebuildPaintsNothing(rows: nat, columns: nat)
    requires rows < U32_LIMIT && columns < U32_LIMIT && rows * columns < U32_LIMIT
    ensures LegacyPaints(New(rows, columns).cells, New(rows, columns).cellsChanged, rows, columns) == []
  {
    var u := New(rows, columns);
    var spots := LegacySpots(u.cells, u.cellsChanged, rows, columns);
    PassOfUnmarked(spots, DeadColor);
    PassOfUnmarked(spots, AliveColor);
  }

  /** The page after its script has run: the canvas sized for pixel size 3,
      Blank mode, a fresh universe and no generations. */
  function LegacyInit(containerWidth: nat, containerHeight: nat): (r: (LegacyPage, Layout))
    requires containerWidth < Frontend.MAX_CONTAINER && containerHeight < Frontend.MAX_CONTAINER
    ensures Ready(r.0)
    ensures r.1 == ResizeCanvas(containerWidth, containerHeight, Frontend.PIXEL_SIZE)
    ensures r.0.rows == r.1.rows && r.0.columns == r.1.columns
    ensures r.0.rows % 2 == 0 && r.0.columns % 2 == 0
    ensures r.0.startMode == Blank && r.0.generations == 0
    ensures forall i :: 0 <= i < r.0.universe.Size() ==> r.0.universe.cells[i] == Dead
  {
    var layout := ResizeCanvas(containerWidth, containerHeight, Frontend.PIXEL_SIZE);
    Frontend.GridFits(layout, Frontend.PIXEL_SIZE, containerWidth, containerHeight);
    (LegacyPage(Frontend.PIXEL_SIZE, layout.rows, layout.columns, Blank, New(layout.rows, layout.columns), 0), layout)
  }

  /** `renderLoop`, one frame: tick once, count one generation, redraw. */
  function LegacyFrame(p: LegacyPage): (r: (LegacyPage, seq<Paint>))
    requires Ready(p)
    ensures Ready(r.0) && r.0 == p.(universe := r.0.universe, generations := r.0.generations)
    ensures r.0.universe == Tick(p.universe) && r.0.generations == p.generations + 1
    ensures r.1 == ChangedPaints(r.0.universe.cellsChanged, p.rows, p.columns)
  {
    var v := Tick(p.universe);
    LegacyAgreesAfterTick(p.universe);
    (p.(universe := v, generations := p.generations + 1), LegacyPaints(v.cells, v.cellsChanged, p.rows, p.columns))
  }

  /** A frame keeps the screen showing the grid, as in the current front end. */
  lemma LegacyFrameKeepsScreen(p: LegacyPage, screen: seq<Color>)
    requires Ready(p) && Shows(screen, p.universe.cells)
    ensures OnGrid(LegacyFrame(p).1, p.columns, |screen|)
    ensures Shows(Repaint(screen, p.columns, LegacyFrame(p).1), LegacyFrame(p).0.universe.cells)
  {
    var u := p.universe;
    var v := Tick(u);
    assert CodesDescribe(v.cellsChanged, u.cells, v.cells) by {
      forall i | 0 <= i < |v.cellsChanged|
        ensures CodeMark(v.cellsChanged[i]) == (if u.cells[i] == v.cells[i] then None else Some(ColorOf(v.cells[i])))
      {
        assert ObeysB3S23(u.cells[i], NeighborsAt(u, i), v.cells[i], v.cellsChanged[i]);
      }
    }
    ChangedRepaintShowsGrid(screen, u.cells, v.cells, v.cellsChanged, p.rows, p.columns);
  }

  /** The slider's change handler: take the new pixel size, resize the
      canvas, always build a new universe (in no particular start mode) and
      redraw, which paints nothing. The generation count is kept. */
  function LegacySlider(p: LegacyPage, pixelSize: nat, containerWidth: nat, containerHeight: nat): (r: (LegacyPage, Layout, seq<Paint>))
    requires containerWidth < Frontend.MAX_CONTAINER && containerHeight < Frontend.MAX_CONTAINER
    ensures Ready(r.0)
    ensures r.1 == ResizeCanvas(containerWidth, containerHeight, pixelSize)
    ensures r.0 == p.(pixelSize := pixelSize, rows := r.1.rows, columns := r.1.columns, universe := r.0.universe)
    ensures r.0.universe == New(r.1.rows, r.1.columns)
    ensures r.2 == []
  {
    var layout := ResizeCanvas(containerWidth, containerHeight, pixelSize);
    Frontend.GridFits(layout, pixelSize, containerWidth, containerHeight);
    var u := New(layout.rows, layout.columns);
    RebuildPaintsNothing(layout.rows, layout.columns);
    (p.(pixelSize := pixelSize, rows := layout.rows, columns := layout.columns, universe := u),
     layout, LegacyPaints(u.cells, u.cellsChanged, layout.rows, layout.columns))
  }

  /** The dropdown's change handler: "Blank" and "Random" select their mode,
      any other string keeps the current one; the universe is rebuilt (and
      the empty redraw run) only when the mode changed. */
  function LegacyDropdown(p: LegacyPage, value: string): (r: (LegacyPage, bool, seq<Paint>))
    requires Ready(p)
    ensures Ready(r.0) && r.2 == []
    ensures StartModeDropdown.Parse(value).None? ==> r.0.startMode == p.startMode
    ensures StartModeDropdown.Parse(value).Some? ==> r.0.startMode == StartModeDropdown.Parse(value).value
    ensures r.1 <==> r.0.startMode != p.startMode
    ensures r.1 ==> r.0 == p.(startMode := r.0.startMode, universe := New(p.rows, p.columns))
    ensures !r.1 ==> r.0 == p
  {
    var next := match StartModeDropdown.Parse(value)
      case Some(m) => m
      case None => p.startMode;
    if next != p.startMode then
      var u := New(p.rows, p.columns);
      RebuildPaintsNothing(p.rows, p.columns);
      (p.(startMode := next, universe := u), true, LegacyPaints(u.cells, u.cellsChanged, p.rows, p.columns))
    else (p, false, [])
  }

  /** Choosing the mode already selected, or an unknown string, rebuilds
      nothing; choosing the other mode always rebuilds. */
  lemma LegacyDropdownRebuildsOnlyOnChange(p: LegacyPage, mode: StartMode, value: string)
    requires Ready(p)
    ensures LegacyDropdown(p, StartModeDropdown.Label(mode)).1 <==> mode != p.startMode
    ensures StartModeDropdown.Parse(value).None? ==> LegacyDropdown(p, value) == (p, false, [])
  {
    StartModeDropdown.LabelRoundTrip(mode, mode);
  }

  /** The Reset button: zero generations, build a new universe and redraw,
      which paints nothing. */
  function LegacyReset(p: LegacyPage): (r: (LegacyPage, seq<Paint>))
    requires Ready(p)
    ensures Ready(r.0) && r.0 == p.(universe := New(p.rows, p.columns), generations := 0)
    ensures r.1 == []
  {
    var u := New(p.rows, p.columns);
    RebuildPaintsNothing(p.rows, p.columns);
    (p.(universe := u, generations := 0), LegacyPaints(u.cells, u.cellsChanged, p.rows, p.columns))
  }

  // ----- the root button handlers as written -----------------------------------

  /** The visibility the root page's button handlers leave behind as written
      (index.js:170-236). Start, Resume and Reset call `drawCells` part-way
      through, and it throws at `universe.cells()`, so only the changes made
      before that call take effect: Start loses hiding itself and showing
      Stop, Resume loses all of its changes, and Reset keeps only hiding the
      generation text. Stop calls no redraw and matches `Buttons.Handle`. */
  function RootHandleAsWritten(v: Buttons.Visibility, b: Buttons.Button): (r: Buttons.Visibility)
    ensures b == Buttons.Stop ==> r == Buttons.Handle(v, Buttons.Stop).0
    ensures b == Buttons.Start ==> r == Buttons.Handle(v, Buttons.Start).0.(start := v.start, stop := v.stop)
    ensures b == Buttons.Resume ==> r == v
    ensures b == Buttons.Reset ==> r == v.(generationText := Buttons.Handle(v, Buttons.Reset).0.generationText)
  {
    match b
    case Start => v.(generationText := true, dropdown := false, slider := false)
    case Stop => v.(stop := false, resume := true, reset := true)
    case Resume => v
    case Reset => v.(generationText := false)
  }

  /** From any consistent page with Start on show, the root Start handler as
      written leaves Start on show and the slider hidden, a state the handlers
      of buttons.js never reach, whether or not a frame is scheduled. */
  lemma RootStartBreaksConsistency(s: Buttons.Session, looping: bool)
    requires Buttons.Consistent(s) && s.visible.start
    ensures Buttons.Shown(RootHandleAsWritten(s.visible, Buttons.Start), Buttons.Start)
    ensures !RootHandleAsWritten(s.visible, Buttons.Start).slider
    ensures !Buttons.Consistent(Buttons.Session(RootHandleAsWritten(s.visible, Buttons.Start), looping))
  {
  }
}
