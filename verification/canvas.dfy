/**
  The drawing side of the front end: where a cell's square lies on the canvas,
  which cell a click lands on, how many rows and columns fit the window, and
  which squares a redraw repaints.

  The canvas is modelled by the colour each cell's square currently shows,
  row-major like the engine's grid; a paint is one `fillRect` of one cell in
  the current fill colour.
 */
module Canvas {
  import opened Wrappers
  import opened Engine
  import EngineProps

  /** Width of the grid line drawn between and around the cells. */
  const PIXEL_BORDER_SIZE: nat := 1

  datatype Color = DeadColor | AliveColor

  /** The fill colour that shows a cell's state. */
  function ColorOf(cell: Cell): (c: Color)
    ensures c == AliveColor <==> cell == Alive
  {
    if cell == Alive then AliveColor else DeadColor
  }

  /** One `fillRect` of the cell at (column, row) in colour `color`. */
  datatype Paint = Paint(column: nat, row: nat, color: Color)

  // ----- geometry ------------------------------------------------------------

  /** An axis-aligned square of canvas pixels. */
  datatype Square = Square(x: int, y: int, side: nat) {
    predicate Covers(px: int, py: int) {
      x <= px < x + side && y <= py < y + side
    }
  }

  /** The square `drawCell` fills for the cell at (column, row). */
  function CellSquare(column: nat, row: nat, pixelSize: nat): Square {
    Square(column * (pixelSize + PIXEL_BORDER_SIZE) + PIXEL_BORDER_SIZE,
           row * (pixelSize + PIXEL_BORDER_SIZE) + PIXEL_BORDER_SIZE,
           pixelSize)
  }

  /** Canvas width (or height) for `n` columns (or rows). */
  function CanvasExtent(pixelSize: nat, n: nat): nat {
    (pixelSize + PIXEL_BORDER_SIZE) * n + PIXEL_BORDER_SIZE
  }

  /** `x` lies in the `q`-th band of width `k`. */
  lemma FloorDivInBand(x: int, k: nat, q: int)
    requires k > 0 && q * k <= x < q * k + k
    ensures x / k == q
  {
    DivModUnique(k, q, x - q * k, x);
  }

  /** Every cell square of the grid lies strictly inside the canvas, inside
      the one-pixel border. */
  lemma SquareInsideCanvas(pixelSize: nat, rows: nat, columns: nat, column: nat, row: nat)
    requires column < columns && row < rows
    ensures CellSquare(column, row, pixelSize).x >= PIXEL_BORDER_SIZE
    ensures CellSquare(column, row, pixelSize).y >= PIXEL_BORDER_SIZE
    ensures CellSquare(column, row, pixelSize).x + pixelSize < CanvasExtent(pixelSize, columns)
    ensures CellSquare(column, row, pixelSize).y + pixelSize < CanvasExtent(pixelSize, rows)
  {
    var k := pixelSize + PIXEL_BORDER_SIZE;
    MulMonotone(column + 1, columns, k);
    MulMonotone(row + 1, rows, k);
    assert (column + 1) * k == column * k + k;
    assert (row + 1) * k == row * k + k;
  }

  /** Squares of two different cells share no pixel. */
  lemma SquaresDisjoint(pixelSize: nat, c1: nat, r1: nat, c2: nat, r2: nat, px: int, py: int)
    requires CellSquare(c1, r1, pixelSize).Covers(px, py)
    requires CellSquare(c2, r2, pixelSize).Covers(px, py)
    ensures c1 == c2 && r1 == r2
  {
    var k := pixelSize + PIXEL_BORDER_SIZE;
    FloorDivInBand(px - 1, k, c1);
    FloorDivInBand(px - 1, k, c2);
    FloorDivInBand(py - 1, k, r1);
    FloorDivInBand(py - 1, k, r2);
  }

  // ----- mouse input ---------------------------------------------------------

  /** The (row, column) a click at canvas offset (offsetX, offsetY) selects,
      or None when the click is outside the grid and is dropped. A positive
      divisor makes Dafny's `/` agree with `Math.floor` of the quotient. */
  function CellAt(offsetX: int, offsetY: int, pixelSize: nat, rows: nat, columns: nat): (a: Option<(nat, nat)>)
    ensures a.None? <==>
      offsetX < 0 || offsetY < 0
      || offsetX >= columns * (pixelSize + PIXEL_BORDER_SIZE)
      || offsetY >= rows * (pixelSize + PIXEL_BORDER_SIZE)
    ensures a.Some? ==>
      && a.value.0 < rows && a.value.1 < columns
      && a.value.1 * (pixelSize + PIXEL_BORDER_SIZE) <= offsetX < (a.value.1 + 1) * (pixelSize + PIXEL_BORDER_SIZE)
      && a.value.0 * (pixelSize + PIXEL_BORDER_SIZE) <= offsetY < (a.value.0 + 1) * (pixelSize + PIXEL_BORDER_SIZE)
  {
    var k := pixelSize + PIXEL_BORDER_SIZE;
    FloorDivCompare(offsetX, k, columns);
    FloorDivCompare(offsetY, k, rows);
    var column := offsetX / k;
    var row := offsetY / k;
    if column < 0 || row < 0 || column >= columns || row >= rows then None
    else Some((row, column))
  }

  /** How `x / k` compares with 0 and with `n`, and the band it picks. */
  lemma FloorDivCompare(x: int, k: nat, n: nat)
    requires k > 0
    ensures x / k < 0 <==> x < 0
    ensures x / k >= n <==> x >= n * k
    ensures (x / k) * k <= x < (x / k + 1) * k
  {
    var q := x / k;
    MulMonotone(q, -1, k);
    MulMonotone(0, q, k);
    MulMonotone(n, q, k);
    MulMonotone(q + 1, n, k);
    assert (q + 1) * k == q * k + k;
  }

  /** A click anywhere on a cell's painted square selects that cell. */
  lemma ClickOnSquareSelectsCell(pixelSize: nat, rows: nat, columns: nat, column: nat, row: nat, px: int, py: int)
    requires column < columns && row < rows
    requires CellSquare(column, row, pixelSize).Covers(px, py)
    ensures CellAt(px, py, pixelSize, rows, columns) == Some((row, column))
  {
    var k := pixelSize + PIXEL_BORDER_SIZE;
    FloorDivInBand(px, k, column);
    FloorDivInBand(py, k, row);
  }

  // ----- window sizing ---------------------------------------------------------

  /** Rows, columns and canvas size chosen for a window. */
  datatype Layout = Layout(rows: nat, columns: nat, width: nat, height: nat)

  /** `resizeCanvas`: the largest even number of columns (rows) whose cells fit
      the container, and the canvas size that holds them with their borders.
      The container size is the whole-pixel part of the source's fractional
      size, which gives the same floors. */
  function ResizeCanvas(containerWidth: nat, containerHeight: nat, pixelSize: nat): (l: Layout)
    ensures l.rows % 2 == 0 && l.columns % 2 == 0
    ensures l.columns * (pixelSize + PIXEL_BORDER_SIZE) <= containerWidth
    ensures containerWidth < (l.columns + 2) * (pixelSize + PIXEL_BORDER_SIZE)
    ensures l.rows * (pixelSize + PIXEL_BORDER_SIZE) <= containerHeight
    ensures containerHeight < (l.rows + 2) * (pixelSize + PIXEL_BORDER_SIZE)
    ensures l.width == CanvasExtent(pixelSize, l.columns)
    ensures l.height == CanvasExtent(pixelSize, l.rows)
  {
    var columns := EvenFit(containerWidth, pixelSize + PIXEL_BORDER_SIZE);
    var rows := EvenFit(containerHeight, pixelSize + PIXEL_BORDER_SIZE);
    Layout(rows, columns, CanvasExtent(pixelSize, columns), CanvasExtent(pixelSize, rows))
  }

  /** `2 * floor(extent / k / 2)`: the largest even count of width-`k` cells
      that fits in `extent`. */
  function EvenFit(extent: nat, k: nat): (n: nat)
    requires k > 0
    ensures n % 2 == 0
    ensures n * k <= extent < (n + 2) * k
  {
    var q := extent / k;
    var n := 2 * (q / 2);
    MulMonotone(n, q, k);
    MulMonotone(q + 1, n + 2, k);
    assert (q + 1) * k == q * k + k;
    n
  }

  // ----- index decoding --------------------------------------------------------

  /** `drawGlider`'s decoding of a flat index: column = index % columns,
      row = (index - column) / columns. */
  function DecodeIndex(index: nat, columns: nat): (rc: (nat, nat))
    requires columns > 0
    ensures rc.1 < columns
    ensures Index(columns, rc.0, rc.1) == index
  {
    var column := index % columns;
    var row := (index - column) / columns;
    DivModUnique(columns, index / columns, 0, index - column);
    (row, column)
  }

  /** Decoding inverts the engine's `get_index`. */
  lemma DecodeInvertsIndex(rows: nat, columns: nat, row: nat, column: nat)
    requires row < rows && column < columns
    ensures DecodeIndex(Index(columns, row, column), columns) == (row, column)
  {
    EngineProps.IndexInjective(columns, row, column,
      DecodeIndex(Index(columns, row, column), columns).0,
      DecodeIndex(Index(columns, row, column), columns).1);
  }

  // ----- two-pass redraw -------------------------------------------------------

  /** A cell the redraw visits: where it is, and the pass that paints it,
      if any. */
  datatype Spot = Spot(column: nat, row: nat, mark: Option<Color>)

  /** One pass: the visited cells marked with `color`, in visiting order. */
  function Pass(spots: seq<Spot>, color: Color): (r: seq<Paint>)
    ensures |r| <= |spots|
    ensures forall k :: 0 <= k < |r| ==> r[k].color == color
  {
    if |spots| == 0 then []
    else
      (if spots[0].mark == Some(color) then [Paint(spots[0].column, spots[0].row, color)] else [])
      + Pass(spots[1..], color)
  }

  /** The redraw: first every cell marked dead, in the dead colour, then
      every cell marked alive, in the alive colour. */
  function TwoPass(spots: seq<Spot>): seq<Paint> {
    Pass(spots, DeadColor) + Pass(spots, AliveColor)
  }

  /** A pass paints a square exactly when a visited cell there carries the
      pass's mark. */
  lemma {:induction false} PassPaintsMarked(spots: seq<Spot>, color: Color, p: Paint)
    ensures p in Pass(spots, color) <==> p.color == color && Spot(p.column, p.row, Some(color)) in spots
  {
    if |spots| > 0 {
      PassPaintsMarked(spots[1..], color, p);
      assert spots == [spots[0]] + spots[1..];
    }
  }

  /** Every marked cell, painted in its own colour, in visiting order. */
  function Marked(spots: seq<Spot>): seq<Paint> {
    if |spots| == 0 then []
    else
      (if spots[0].mark.Some? then [Paint(spots[0].column, spots[0].row, spots[0].mark.value)] else [])
      + Marked(spots[1..])
  }

  /** The redraw paints each marked cell exactly once and nothing else:
      its paints are a permutation of the marked cells. */
  lemma {:induction false} TwoPassPermutesMarked(spots: seq<Spot>)
    ensures multiset(TwoPass(spots)) == multiset(Marked(spots))
  {
    if |spots| > 0 {
      TwoPassPermutesMarked(spots[1..]);
      var s := spots[0];
      var headDead := if s.mark == Some(DeadColor) then [Paint(s.column, s.row, DeadColor)] else [];
      var headAlive := if s.mark == Some(AliveColor) then [Paint(s.column, s.row, AliveColor)] else [];
      var head := if s.mark.Some? then [Paint(s.column, s.row, s.mark.value)] else [];
      assert Pass(spots, DeadColor) == headDead + Pass(spots[1..], DeadColor);
      assert Pass(spots, AliveColor) == headAlive + Pass(spots[1..], AliveColor);
      assert Marked(spots) == head + Marked(spots[1..]);
      match s.mark
      case None =>
        assert headDead == [] && headAlive == [] && head == [];
      case Some(DeadColor) =>
        assert headAlive == [] && headDead == head;
      case Some(AliveColor) =>
        assert headDead == [] && headAlive == head;
    }
  }

  /** Every dead-colour paint of the redraw comes before every alive-colour one. */
  lemma TwoPassDeadFirst(spots: seq<Spot>)
    ensures forall k, m :: 0 <= k < m < |TwoPass(spots)| && TwoPass(spots)[m].color == DeadColor ==>
      TwoPass(spots)[k].color == DeadColor
  {
    var dead := Pass(spots, DeadColor);
    var both := TwoPass(spots);
    forall k, m | 0 <= k < m < |both| && both[m].color == DeadColor
      ensures both[k].color == DeadColor
    {
      assert m < |dead|;
    }
  }

  // ----- screen model ------------------------------------------------------------

  /** The flat index a paint covers. */
  function Target(p: Paint, columns: nat): nat {
    Index(columns, p.row, p.column)
  }

  /** The paints all land on cells of a grid with `size` cells and `columns` columns. */
  predicate OnGrid(paints: seq<Paint>, columns: nat, size: nat) {
    forall k :: 0 <= k < |paints| ==> paints[k].column < columns && Target(paints[k], columns) < size
  }

  /** The flat indexes the paints cover, in order. */
  function Targets(paints: seq<Paint>, columns: nat): (t: seq<nat>)
    ensures |t| == |paints|
    ensures forall k :: 0 <= k < |paints| ==> t[k] == Target(paints[k], columns)
  {
    seq(|paints|, k requires 0 <= k < |paints| => Target(paints[k], columns))
  }

  /** The colours of the paints, in order. */
  function Colors(paints: seq<Paint>): (c: seq<Color>)
    ensures |c| == |paints|
    ensures forall k :: 0 <= k < |paints| ==> c[k] == paints[k].color
  {
    seq(|paints|, k requires 0 <= k < |paints| => paints[k].color)
  }

  /** The screen after the paints, in order: a later paint of a square
      covers an earlier one. */
  function Repaint(screen: seq<Color>, columns: nat, paints: seq<Paint>): (r: seq<Color>)
    requires OnGrid(paints, columns, |screen|)
    ensures |r| == |screen|
  {
    WriteCells(screen, Targets(paints, columns), Colors(paints))
  }

  /** The screen shows the grid: every square has its cell's colour. */
  predicate Shows(screen: seq<Color>, cells: seq<Cell>) {
    |screen| == |cells| && forall i :: 0 <= i < |cells| ==> screen[i] == ColorOf(cells[i])
  }

  /** What a repaint does to one square: untouched squares keep their
      colour, and a square every paint of which uses one colour ends in
      that colour. */
  lemma RepaintSquare(screen: seq<Color>, columns: nat, paints: seq<Paint>, j: nat, color: Color)
    requires OnGrid(paints, columns, |screen|) && j < |screen|
    requires forall k :: 0 <= k < |paints| && Target(paints[k], columns) == j ==> paints[k].color == color
    ensures (forall k :: 0 <= k < |paints| ==> Target(paints[k], columns) != j)
      ==> Repaint(screen, columns, paints)[j] == screen[j]
    ensures (exists k :: 0 <= k < |paints| && Target(paints[k], columns) == j)
      ==> Repaint(screen, columns, paints)[j] == color
  {
    var targets := Targets(paints, columns);
    if j in targets {
      var k := LastOccurrence(targets, j);
      assert Repaint(screen, columns, paints)[targets[k]] == paints[k].color;
    }
  }

  // ----- the two redraws of the current front end ----------------------------

  /** The pass a change code selects: 1 the dead pass, 2 the alive pass,
      anything else neither. */
  function CodeMark(code: Byte): Option<Color> {
    if code == NOW_DEAD then Some(DeadColor)
    else if code == NOW_ALIVE then Some(AliveColor)
    else None
  }

  /** The cells `drawCells` visits, row by row, with the pass each code selects. */
  function ChangeSpots(codes: seq<Byte>, rows: nat, columns: nat): (s: seq<Spot>)
    requires |codes| == rows * columns
    ensures |s| == |codes|
  {
    seq(|codes|, i requires 0 <= i < |codes| =>
      Spot(i % columns, i / columns, CodeMark(codes[i])))
  }

  /** `drawCells`: repaint the cells whose change code is 1 in the dead
      colour, then those whose code is 2 in the alive colour. */
  function ChangedPaints(codes: seq<Byte>, rows: nat, columns: nat): seq<Paint>
    requires |codes| == rows * columns
  {
    TwoPass(ChangeSpots(codes, rows, columns))
  }

  /** Every visited cell is on the grid and carries its own code's mark, and
      every cell of the grid is visited. */
  lemma ChangeSpotsCoverGrid(codes: seq<Byte>, rows: nat, columns: nat)
    requires |codes| == rows * columns
    ensures forall s :: s in ChangeSpots(codes, rows, columns) ==>
      s.row < rows && s.column < columns && s.mark == CodeMark(GridAt(codes, rows, columns, s.row, s.column))
    ensures forall row: nat, column: nat :: row < rows && column < columns ==>
      Spot(column, row, CodeMark(GridAt(codes, rows, columns, row, column))) in ChangeSpots(codes, rows, columns)
  {
    var spots := ChangeSpots(codes, rows, columns);
    forall s | s in spots
      ensures s.row < rows && s.column < columns && s.mark == CodeMark(GridAt(codes, rows, columns, s.row, s.column))
    {
      var i :| 0 <= i < |spots| && spots[i] == s;
      FlatIndexBounds(rows, columns, i);
    }
    forall row: nat, column: nat | row < rows && column < columns
      ensures Spot(column, row, CodeMark(GridAt(codes, rows, columns, row, column))) in spots
    {
      var i := Index(columns, row, column);
      EngineProps.IndexRoundTrip(rows, columns, row, column);
      assert spots[i] == Spot(column, row, CodeMark(codes[i]));
    }
  }

  /** `drawCells` paints a cell in a colour exactly when its code selects
      that colour's pass, and nothing off the grid. */
  lemma ChangedPaintsMarked(codes: seq<Byte>, rows: nat, columns: nat)
    requires |codes| == rows * columns
    ensures forall p :: p in ChangedPaints(codes, rows, columns) ==>
      p.row < rows && p.column < columns && CodeMark(GridAt(codes, rows, columns, p.row, p.column)) == Some(p.color)
    ensures forall row: nat, column: nat, color: Color :: row < rows && column < columns ==>
      (Paint(column, row, color) in ChangedPaints(codes, rows, columns) <==> CodeMark(GridAt(codes, rows, columns, row, column)) == Some(color))
  {
    var spots := ChangeSpots(codes, rows, columns);
    var paints := ChangedPaints(codes, rows, columns);
    ChangeSpotsCoverGrid(codes, rows, columns);
    forall p | p in paints
      ensures p.row < rows && p.column < columns && CodeMark(GridAt(codes, rows, columns, p.row, p.column)) == Some(p.color)
    {
      PassPaintsMarked(spots, p.color, p);
    }
    forall row: nat, column: nat, color: Color | row < rows && column < columns
      ensures Paint(column, row, color) in paints <==> CodeMark(GridAt(codes, rows, columns, row, column)) == Some(color)
    {
      PassPaintsMarked(spots, color, Paint(column, row, color));
    }
  }

  /** The paints of `drawCells` all land on the grid. */
  lemma ChangedPaintsOnGrid(codes: seq<Byte>, rows: nat, columns: nat)
    requires |codes| == rows * columns
    ensures OnGrid(ChangedPaints(codes, rows, columns), columns, |codes|)
  {
    var paints := ChangedPaints(codes, rows, columns);
    ChangedPaintsMarked(codes, rows, columns);
    forall k | 0 <= k < |paints|
      ensures paints[k].column < columns && Target(paints[k], columns) < |codes|
    {
      assert paints[k] in paints;
      IndexInBounds(rows, columns, paints[k].row, paints[k].column);
    }
  }

  /** `drawCells` paints a cell in the dead colour exactly when its code is
      1, in the alive colour exactly when its code is 2, never a cell with
      code 0, and nothing off the grid. */
  lemma ChangedPaintsExact(codes: seq<Byte>, rows: nat, columns: nat)
    requires |codes| == rows * columns
    ensures OnGrid(ChangedPaints(codes, rows, columns), columns, |codes|)
    ensures forall p :: p in ChangedPaints(codes, rows, columns) ==>
      p.row < rows && p.column < columns && GridAt(codes, rows, columns, p.row, p.column) != UNCHANGED
    ensures forall row: nat, column: nat :: row < rows && column < columns ==>
      (Paint(column, row, DeadColor) in ChangedPaints(codes, rows, columns) <==> GridAt(codes, rows, columns, row, column) == NOW_DEAD)
    ensures forall row: nat, column: nat :: row < rows && column < columns ==>
      (Paint(column, row, AliveColor) in ChangedPaints(codes, rows, columns) <==> GridAt(codes, rows, columns, row, column) == NOW_ALIVE)
  {
    ChangedPaintsMarked(codes, rows, columns);
    ChangedPaintsOnGrid(codes, rows, columns);
  }

  /** The change codes describe the step from `before` to `after`: code 0
      where the state is kept, otherwise the pass of the new state. */
  predicate CodesDescribe(codes: seq<Byte>, before: seq<Cell>, after: seq<Cell>) {
    && |before| == |codes| && |after| == |codes|
    && forall i :: 0 <= i < |codes| ==>
      CodeMark(codes[i]) == (if before[i] == after[i] then None else Some(ColorOf(after[i])))
  }

  /** One square after `drawCells`, when the codes describe the change. */
  lemma ChangedRepaintSquare(screen: seq<Color>, before: seq<Cell>, after: seq<Cell>, codes: seq<Byte>, rows: nat, columns: nat, j: nat)
    requires |codes| == rows * columns && CodesDescribe(codes, before, after)
    requires Shows(screen, before) && j < |codes|
    requires OnGrid(ChangedPaints(codes, rows, columns), columns, |screen|)
    ensures Repaint(screen, columns, ChangedPaints(codes, rows, columns))[j] == ColorOf(after[j])
  {
    ChangedPaintsMarked(codes, rows, columns);
    var paints := ChangedPaints(codes, rows, columns);
    FlatIndexBounds(rows, columns, j);
    var row: nat, column: nat := j / columns, j % columns;
    assert GridAt(codes, rows, columns, row, column) == codes[j];
    forall k | 0 <= k < |paints| && Target(paints[k], columns) == j
      ensures paints[k].color == ColorOf(after[j])
    {
      assert paints[k] in paints;
      assert GridAt(codes, rows, columns, paints[k].row, paints[k].column) == codes[j];
    }
    RepaintSquare(screen, columns, paints, j, ColorOf(after[j]));
    if before[j] != after[j] {
      assert Paint(column, row, ColorOf(after[j])) in paints;
      var k :| 0 <= k < |paints| && paints[k] == Paint(column, row, ColorOf(after[j]));
      assert Target(paints[k], columns) == j;
    }
  }

  /** After any change, a screen that showed the old grid shows the new one
      once `drawCells` has repainted it: cells with code 0 kept their state,
      and every other cell is painted in its new state's colour. */
  lemma ChangedRepaintShowsGrid(screen: seq<Color>, before: seq<Cell>, after: seq<Cell>, codes: seq<Byte>, rows: nat, columns: nat)
    requires |codes| == rows * columns && CodesDescribe(codes, before, after)
    requires Shows(screen, before)
    ensures OnGrid(ChangedPaints(codes, rows, columns), columns, |screen|)
    ensures Shows(Repaint(screen, columns, ChangedPaints(codes, rows, columns)), after)
  {
    ChangedPaintsOnGrid(codes, rows, columns);
    forall j | 0 <= j < |codes|
      ensures Repaint(screen, columns, ChangedPaints(codes, rows, columns))[j] == ColorOf(after[j])
    {
      ChangedRepaintSquare(screen, before, after, codes, rows, columns, j);
    }
  }

  /** The change codes mark every cell with its own state's pass, as they do
      right after seeding. */
  predicate CodesMarkAll(codes: seq<Byte>, cells: seq<Cell>) {
    |cells| == |codes| && forall i :: 0 <= i < |codes| ==> CodeMark(codes[i]) == Some(ColorOf(cells[i]))
  }

  /** One square after a `drawCells` that repaints every cell. */
  lemma FullRepaintSquare(screen: seq<Color>, cells: seq<Cell>, codes: seq<Byte>, rows: nat, columns: nat, j: nat)
    requires |codes| == rows * columns && CodesMarkAll(codes, cells)
    requires |screen| == |codes| && j < |codes|
    requires OnGrid(ChangedPaints(codes, rows, columns), columns, |screen|)
    ensures Repaint(screen, columns, ChangedPaints(codes, rows, columns))[j] == ColorOf(cells[j])
  {
    ChangedPaintsMarked(codes, rows, columns);
    var paints := ChangedPaints(codes, rows, columns);
    FlatIndexBounds(rows, columns, j);
    var row: nat, column: nat := j / columns, j % columns;
    assert GridAt(codes, rows, columns, row, column) == codes[j];
    forall k | 0 <= k < |paints| && Target(paints[k], columns) == j
      ensures paints[k].color == ColorOf(cells[j])
    {
      assert paints[k] in paints;
      assert GridAt(codes, rows, columns, paints[k].row, paints[k].column) == codes[j];
    }
    RepaintSquare(screen, columns, paints, j, ColorOf(cells[j]));
    assert Paint(column, row, ColorOf(cells[j])) in paints;
    var k :| 0 <= k < |paints| && paints[k] == Paint(column, row, ColorOf(cells[j]));
    assert Target(paints[k], columns) == j;
  }

  /** When every code marks its cell's state, `drawCells` makes any screen of
      the grid's size show the grid, whatever it showed before. */
  lemma FullRepaintShowsGrid(screen: seq<Color>, cells: seq<Cell>, codes: seq<Byte>, rows: nat, columns: nat)
    requires |codes| == rows * columns && CodesMarkAll(codes, cells)
    requires |screen| == |codes|
    ensures OnGrid(ChangedPaints(codes, rows, columns), columns, |screen|)
    ensures Shows(Repaint(screen, columns, ChangedPaints(codes, rows, columns)), cells)
  {
    ChangedPaintsOnGrid(codes, rows, columns);
    forall j | 0 <= j < |codes|
      ensures Repaint(screen, columns, ChangedPaints(codes, rows, columns))[j] == ColorOf(cells[j])
    {
      FullRepaintSquare(screen, cells, codes, rows, columns, j);
    }
  }

  /** The cells `drawGlider` visits: each returned index, decoded, marked
      with the colour of the cell written there. */
  function GliderSpots(glider: Glider, columns: nat): (s: seq<Spot>)
    requires columns > 0 && |glider.indexes| == |glider.cells|
    ensures |s| == |glider.indexes|
  {
    seq(|glider.indexes|, k requires 0 <= k < |glider.indexes| =>
      var rc := DecodeIndex(glider.indexes[k], columns);
      Spot(rc.1, rc.0, Some(ColorOf(glider.cells[k]))))
  }

  /** `drawGlider`: the stamped cells written Dead, then those written Alive. */
  function GliderPaints(glider: Glider, columns: nat): seq<Paint>
    requires columns > 0 && |glider.indexes| == |glider.cells|
  {
    TwoPass(GliderSpots(glider, columns))
  }

  /** With every cell marked, `Marked` paints every visited cell, in order. */
  lemma {:induction false} MarkedAllSome(spots: seq<Spot>)
    requires forall k :: 0 <= k < |spots| ==> spots[k].mark.Some?
    ensures Marked(spots) == seq(|spots|, k requires 0 <= k < |spots| =>
      Paint(spots[k].column, spots[k].row, spots[k].mark.value))
  {
    if |spots| > 0 {
      MarkedAllSome(spots[1..]);
    }
  }

  /** The square `drawGlider` paints for entry `k` of the glider. */
  function GliderEntryPaint(glider: Glider, columns: nat, k: nat): Paint
    requires columns > 0 && |glider.indexes| == |glider.cells| && k < |glider.indexes|
  {
    var rc := DecodeIndex(glider.indexes[k], columns);
    Paint(rc.1, rc.0, ColorOf(glider.cells[k]))
  }

  /** `drawGlider` paints each of the returned entries exactly once, at its
      decoded position in the colour of the cell written there, the Dead
      ones before the Alive ones. */
  lemma GliderPaintsEachEntryOnce(glider: Glider, columns: nat)
    requires columns > 0 && |glider.indexes| == |glider.cells|
    ensures multiset(GliderPaints(glider, columns))
         == multiset(seq(|glider.indexes|, k requires 0 <= k < |glider.indexes| => GliderEntryPaint(glider, columns, k)))
    ensures forall k, m :: 0 <= k < m < |GliderPaints(glider, columns)| && GliderPaints(glider, columns)[m].color == DeadColor ==>
      GliderPaints(glider, columns)[k].color == DeadColor
  {
    var spots := GliderSpots(glider, columns);
    TwoPassPermutesMarked(spots);
    TwoPassDeadFirst(spots);
    MarkedAllSome(spots);
    assert Marked(spots) == seq(|glider.indexes|, k requires 0 <= k < |glider.indexes| => GliderEntryPaint(glider, columns, k));
  }

  /** Every paint of `drawGlider` is the paint of one of the entries, and
      every entry is painted. */
  lemma GliderPaintsAreEntries(glider: Glider, columns: nat)
    requires columns > 0 && |glider.indexes| == |glider.cells|
    ensures forall p :: p in GliderPaints(glider, columns) ==>
      exists m :: 0 <= m < |glider.indexes| && p == GliderEntryPaint(glider, columns, m)
    ensures forall m :: 0 <= m < |glider.indexes| ==> GliderEntryPaint(glider, columns, m) in GliderPaints(glider, columns)
  {
    var spots := GliderSpots(glider, columns);
    forall p | p in GliderPaints(glider, columns)
      ensures exists m :: 0 <= m < |glider.indexes| && p == GliderEntryPaint(glider, columns, m)
    {
      PassPaintsMarked(spots, p.color, p);
      var m :| 0 <= m < |spots| && spots[m] == Spot(p.column, p.row, Some(p.color));
      assert p == GliderEntryPaint(glider, columns, m);
    }
    forall m | 0 <= m < |glider.indexes|
      ensures GliderEntryPaint(glider, columns, m) in GliderPaints(glider, columns)
    {
      var p := GliderEntryPaint(glider, columns, m);
      assert spots[m] == Spot(p.column, p.row, Some(p.color));
      PassPaintsMarked(spots, p.color, p);
    }
  }

  /** The paints of `drawGlider` for a stamp on the universe `u` land on the grid. */
  lemma GliderPaintsOnGrid(u: Universe, glider: Glider)
    requires u.Valid() && u.columns > 0 && |glider.indexes| == |glider.cells|
    requires forall k :: 0 <= k < |glider.indexes| ==> glider.indexes[k] < u.Size()
    ensures OnGrid(GliderPaints(glider, u.columns), u.columns, u.Size())
  {
    var paints := GliderPaints(glider, u.columns);
    GliderPaintsAreEntries(glider, u.columns);
    forall k | 0 <= k < |paints|
      ensures paints[k].column < u.columns && Target(paints[k], u.columns) < u.Size()
    {
      assert paints[k] in paints;
    }
  }

  /** One square after `drawGlider`, when the nine indexes are distinct. */
  lemma GliderRepaintSquare(u: Universe, row: nat, column: nat, direction: GliderDirection, screen: seq<Color>, j: nat)
    requires u.Valid() && 3 <= u.rows && 3 <= u.columns && row < u.rows && column < u.columns
    requires Shows(screen, u.cells) && j < u.Size()
    requires OnGrid(GliderPaints(ToggleGlider(u, row, column, direction).1, u.columns), u.columns, |screen|)
    ensures Repaint(screen, u.columns, GliderPaints(ToggleGlider(u, row, column, direction).1, u.columns))[j]
         == ColorOf(ToggleGlider(u, row, column, direction).0.cells[j])
  {
    var (after, glider) := ToggleGlider(u, row, column, direction);
    var ix := glider.indexes;
    var paints := GliderPaints(glider, u.columns);
    EngineProps.GliderIndexesDistinct(u.rows, u.columns, row, column);
    GliderPaintsAreEntries(glider, u.columns);
    var color := ColorOf(after.cells[j]);
    forall k | 0 <= k < |paints| && Target(paints[k], u.columns) == j
      ensures paints[k].color == color
    {
      assert paints[k] in paints;
      var m :| 0 <= m < |ix| && paints[k] == GliderEntryPaint(glider, u.columns, m);
      assert ix[m] == j;
      assert LastWrite(ix, m);
    }
    RepaintSquare(screen, u.columns, paints, j, color);
    if j in ix {
      var m :| 0 <= m < |ix| && ix[m] == j;
      var p := GliderEntryPaint(glider, u.columns, m);
      assert p in paints;
      var k :| 0 <= k < |paints| && paints[k] == p;
      assert Target(paints[k], u.columns) == j;
    } else {
      forall k | 0 <= k < |paints|
        ensures Target(paints[k], u.columns) != j
      {
        assert paints[k] in paints;
      }
    }
  }

  /** On a grid of at least 3x3, a screen that showed the grid shows the
      stamped grid once `drawGlider` has painted the returned entries. */
  lemma GliderRepaintShowsGrid(u: Universe, row: nat, column: nat, direction: GliderDirection, screen: seq<Color>)
    requires u.Valid() && 3 <= u.rows && 3 <= u.columns && row < u.rows && column < u.columns
    requires Shows(screen, u.cells)
    ensures OnGrid(GliderPaints(ToggleGlider(u, row, column, direction).1, u.columns), u.columns, |screen|)
    ensures Shows(Repaint(screen, u.columns, GliderPaints(ToggleGlider(u, row, column, direction).1, u.columns)),
                  ToggleGlider(u, row, column, direction).0.cells)
  {
    var r := ToggleGlider(u, row, column, direction);
    GliderPaintsOnGrid(u, r.1);
    forall j | 0 <= j < u.Size()
      ensures Repaint(screen, u.columns, GliderPaints(r.1, u.columns))[j] == ColorOf(r.0.cells[j])
    {
      GliderRepaintSquare(u, row, column, direction, screen, j);
    }
  }

  /** A square that any Alive entry of the glider covers ends in the alive
      colour after `drawGlider`, whatever other entries write there. */
  lemma GliderAliveEntryWins(glider: Glider, columns: nat, screen: seq<Color>, a: nat)
    requires columns > 0 && |glider.indexes| == |glider.cells|
    requires OnGrid(GliderPaints(glider, columns), columns, |screen|)
    requires a < |glider.indexes| && glider.cells[a] == Alive
    ensures glider.indexes[a] < |screen|
    ensures Repaint(screen, columns, GliderPaints(glider, columns))[glider.indexes[a]] == AliveColor
  {
    GliderPaintsAreEntries(glider, columns);
    GliderPaintsEachEntryOnce(glider, columns);
    var paints := GliderPaints(glider, columns);
    var j := glider.indexes[a];
    var alive := GliderEntryPaint(glider, columns, a);
    var ka :| 0 <= ka < |paints| && paints[ka] == alive;
    var targets := Targets(paints, columns);
    assert targets[ka] == j;
    var k := LastOccurrence(targets, j);
    assert ka <= k;
    assert paints[k].color == AliveColor;
    assert Repaint(screen, columns, paints)[targets[k]] == paints[k].color;
  }

  /** The screen side of the two-row example: `drawGlider` paints the Alive
      entry for cell 4 after the Dead one, so the square ends Alive. */
  lemma SmallGliderOnScreen()
    ensures OnGrid(GliderPaints(EngineProps.SMALL_GLIDER, 4), 4, 8)
    ensures Repaint(seq(8, _ => DeadColor), 4, GliderPaints(EngineProps.SMALL_GLIDER, 4))[4] == AliveColor
  {
    GliderPaintsOnGrid(New(2, 4), EngineProps.SMALL_GLIDER);
    GliderAliveEntryWins(EngineProps.SMALL_GLIDER, 4, seq(8, _ => DeadColor), 0);
  }
}
