/**
  The Game of Life engine: a torus of `rows * columns` cells stored row-major in a
  flat sequence, a second buffer that the generation step writes into and then
  swaps with the first, and a per-cell change code read by the front end to
  repaint only what changed.

  Rust's `u32` arithmetic is modelled with unbounded integers; `Valid` requires
  the dimensions and their product to fit in 32 bits, so that no index
  computation of the engine can wrap.
 */
module Engine {

  /** One more than the largest `u32`. */
  const U32_LIMIT: int := 0x1_0000_0000

  /** A `u8`, the element type of the change-code buffer. */
  type Byte = b: int | 0 <= b < 256

  /** Change codes: the cell kept its state, became Dead, or became Alive. */
  const UNCHANGED: Byte := 0
  const NOW_DEAD: Byte := 1
  const NOW_ALIVE: Byte := 2

  datatype Cell = Dead | Alive {

    /** Flips the cell. */
    function Toggle(): (c: Cell)
      ensures c != this
    {
      match this
      case Dead => Alive
      case Alive => Dead
    }

    /** The cell's `repr(u8)` value, which the neighbour count adds up. */
    function Value(): (n: nat)
      ensures n <= 1
      ensures n == 1 <==> this == Alive
    {
      if Alive? then 1 else 0
    }
  }

  datatype StartMode = Blank | Random

  datatype GliderDirection = NW | NE | SW | SE

  datatype Universe = Universe(
    columns: nat,
    rows: nat,
    cells: seq<Cell>,
    cellsNext: seq<Cell>,
    cellsChanged: seq<Byte>)
  {
    /** Number of cells. */
    function Size(): nat {
      rows * columns
    }

    /** The three buffers have one entry per cell and every index fits a `u32`. */
    predicate Valid() {
      && rows < U32_LIMIT
      && columns < U32_LIMIT
      && rows * columns < U32_LIMIT
      && |cells| == Size()
      && |cellsNext| == Size()
      && |cellsChanged| == Size()
    }

    /** Same dimensions and buffer lengths as `u`. */
    predicate SameShape(u: Universe) {
      && columns == u.columns
      && rows == u.rows
      && |cells| == |u.cells|
      && |cellsNext| == |u.cellsNext|
      && |cellsChanged| == |u.cellsChanged|
    }
  }

  /** Row-major index of (row, column) in a grid with `columns` columns. */
  function Index(columns: nat, row: nat, column: nat): nat {
    row * columns + column
  }

  /** The entry of a row-major grid buffer at (row, column): a cell state
      or a change code. */
  function GridAt<T>(buffer: seq<T>, rows: nat, columns: nat, row: nat, column: nat): T
    requires |buffer| == rows * columns && row < rows && column < columns
  {
    IndexInBounds(rows, columns, row, column);
    buffer[Index(columns, row, column)]
  }

  /** An in-bounds (row, column) has an index inside the grid. */
  lemma IndexInBounds(rows: nat, columns: nat, row: nat, column: nat)
    requires row < rows && column < columns
    ensures Index(columns, row, column) < rows * columns
  {
    MulMonotone(row + 1, rows, columns);
    assert (row + 1) * columns == row * columns + columns;
  }

  lemma MulMonotone(a: int, b: int, c: nat)
    ensures a <= b ==> a * c <= b * c
  {
    if a <= b {
      assert b * c == a * c + (b - a) * c;
    }
  }

  /** Quotient and remainder by a positive divisor are unique. */
  lemma DivModUnique(d: nat, q: int, r: int, i: int)
    requires 0 <= r < d && i == q * d + r
    ensures i / d == q && i % d == r
  {
    var q', r' := i / d, i % d;
    MulMonotone(q' + 1, q, d);
    MulMonotone(q + 1, q', d);
    assert (q' + 1) * d == q' * d + d;
    assert (q + 1) * d == q * d + d;
  }

  /** A flat index inside the grid decodes to an in-bounds (row, column). */
  lemma FlatIndexBounds(rows: nat, columns: nat, i: nat)
    requires i < rows * columns
    ensures columns > 0
    ensures i / columns < rows && i % columns < columns
    ensures Index(columns, i / columns, i % columns) == i
  {
    MulMonotone(rows, i / columns, columns);
  }

  /** The previous coordinate on a ring of `n` positions: the source's
      `north` and `west`, and the glider's `up` and `left`. */
  function Prev(n: nat, i: nat): (r: nat)
    requires i < n
    ensures r < n
  {
    if i == 0 then n - 1 else i - 1
  }

  /** The next coordinate on a ring of `n` positions: `south`, `east`,
      `down` and `right`. */
  function Next(n: nat, i: nat): (r: nat)
    requires i < n
    ensures r < n
  {
    if i == n - 1 then 0 else i + 1
  }

  /** Number of Alive cells among the eight torus neighbours of (row, column),
      counted in the source's order nw, n, ne, w, e, sw, s, se. */
  function LiveNeighborCount(u: Universe, row: nat, column: nat): (count: nat)
    requires u.Valid() && row < u.rows && column < u.columns
    ensures count <= 8
  {
    var north := Prev(u.rows, row);
    var south := Next(u.rows, row);
    var west := Prev(u.columns, column);
    var east := Next(u.columns, column);
    IndexInBounds(u.rows, u.columns, north, west);
    IndexInBounds(u.rows, u.columns, north, column);
    IndexInBounds(u.rows, u.columns, north, east);
    IndexInBounds(u.rows, u.columns, row, west);
    IndexInBounds(u.rows, u.columns, row, east);
    IndexInBounds(u.rows, u.columns, south, west);
    IndexInBounds(u.rows, u.columns, south, column);
    IndexInBounds(u.rows, u.columns, south, east);
    u.cells[Index(u.columns, north, west)].Value()
    + u.cells[Index(u.columns, north, column)].Value()
    + u.cells[Index(u.columns, north, east)].Value()
    + u.cells[Index(u.columns, row, west)].Value()
    + u.cells[Index(u.columns, row, east)].Value()
    + u.cells[Index(u.columns, south, west)].Value()
    + u.cells[Index(u.columns, south, column)].Value()
    + u.cells[Index(u.columns, south, east)].Value()
  }

  /** The neighbour count of the cell stored at flat index `i`. */
  function NeighborsAt(u: Universe, i: nat): (count: nat)
    requires u.Valid() && i < u.Size()
    ensures count <= 8
  {
    FlatIndexBounds(u.rows, u.columns, i);
    LiveNeighborCount(u, i / u.columns, i % u.columns)
  }

  /** The match arms of `tick`: the next state of one cell and its change
      code. Every outcome is the B3/S23 successor with its change code. */
  function Rule(cell: Cell, liveNeighbors: nat): (r: (Cell, Byte))
    ensures ObeysB3S23(cell, liveNeighbors, r.0, r.1)
  {
    if cell == Alive && (liveNeighbors < 2 || liveNeighbors > 3) then (Dead, NOW_DEAD)
    else if cell == Dead && liveNeighbors == 3 then (Alive, NOW_ALIVE)
    else (cell, UNCHANGED)
  }

  /** Conway's B3/S23 rule in its textbook form, together with the meaning of
      the change code: nonzero exactly when the state changed, 2 for a birth,
      1 for a death. */
  predicate ObeysB3S23(before: Cell, liveNeighbors: nat, after: Cell, code: Byte) {
    && (after == Alive <==> liveNeighbors == 3 || (before == Alive && liveNeighbors == 2))
    && (code != UNCHANGED <==> after != before)
    && (code == NOW_ALIVE <==> after != before && after == Alive)
    && (code == NOW_DEAD <==> after != before && after == Dead)
  }

  /** The next state and change code of the cell at flat index `i`. */
  function Outcome(u: Universe, i: nat): (Cell, Byte)
    requires u.Valid() && i < u.Size()
  {
    Rule(u.cells[i], NeighborsAt(u, i))
  }

  /** One generation: every cell's next state is computed from the pre-step
      grid, written to the second buffer, and the buffers are swapped. */
  function Tick(u: Universe): (v: Universe)
    requires u.Valid()
    ensures v.Valid() && v.SameShape(u)
    ensures v.cellsNext == u.cells
    ensures forall i :: 0 <= i < u.Size() ==>
      ObeysB3S23(u.cells[i], NeighborsAt(u, i), v.cells[i], v.cellsChanged[i])
  {
    var n := u.Size();
    var next := seq(n, i requires 0 <= i < n => Outcome(u, i).0);
    var codes := seq(n, i requires 0 <= i < n => Outcome(u, i).1);
    Universe(u.columns, u.rows, next, u.cells, codes)
  }

  /** `tick` as the source writes it: a row loop around a column loop, each
      step writing one cell of the second buffer and one change code, then the
      swap. It computes the same universe as `Tick`. */
  method TickByRows(u: Universe) returns (v: Universe)
    requires u.Valid()
    ensures v == Tick(u)
  {
    var next := u.cellsNext;
    var changed := u.cellsChanged;
    var row := 0;
    while row < u.rows
      invariant 0 <= row <= u.rows
      invariant |next| == u.Size() && |changed| == u.Size()
      invariant row * u.columns <= u.Size()
      invariant forall i :: 0 <= i < row * u.columns ==>
        next[i] == Outcome(u, i).0 && changed[i] == Outcome(u, i).1
    {
      var column := 0;
      while column < u.columns
        invariant 0 <= column <= u.columns
        invariant |next| == u.Size() && |changed| == u.Size()
        invariant row * u.columns + column <= u.Size()
        invariant forall i :: 0 <= i < row * u.columns + column ==>
          next[i] == Outcome(u, i).0 && changed[i] == Outcome(u, i).1
      {
        var idx := Index(u.columns, row, column);
        IndexInBounds(u.rows, u.columns, row, column);
        DivModUnique(u.columns, row, column, idx);
        assert NeighborsAt(u, idx) == LiveNeighborCount(u, row, column);
        var outcome := Rule(u.cells[idx], LiveNeighborCount(u, row, column));
        next := next[idx := outcome.0];
        changed := changed[idx := outcome.1];
        column := column + 1;
      }
      assert row * u.columns + u.columns == (row + 1) * u.columns;
      MulMonotone(row + 1, u.rows, u.columns);
      row := row + 1;
    }
    v := Universe(u.columns, u.rows, next, u.cells, changed);
    var w := Tick(u);
    assert next == w.cells;
    assert changed == w.cellsChanged;
  }

  /** Flips the cell at (row, column) and returns its new state; the second
      buffer and the change codes are left as they were. */
  function ToggleCell(u: Universe, row: nat, column: nat): (r: (Universe, Cell))
    requires u.Valid() && row < u.rows && column < u.columns
    ensures r.0.Valid() && r.0.SameShape(u)
    ensures Index(u.columns, row, column) < u.Size()
    ensures r.1 == r.0.cells[Index(u.columns, row, column)]
    ensures r.1 != u.cells[Index(u.columns, row, column)]
    ensures forall j :: 0 <= j < u.Size() && j != Index(u.columns, row, column) ==>
      r.0.cells[j] == u.cells[j]
    ensures r.0.cellsNext == u.cellsNext && r.0.cellsChanged == u.cellsChanged
  {
    IndexInBounds(u.rows, u.columns, row, column);
    var idx := Index(u.columns, row, column);
    var cell := u.cells[idx].Toggle();
    (u.(cells := u.cells[idx := cell]), cell)
  }

  /** The 3x3 pattern stamped for each direction, row-major from the top-left. */
  function Pattern(direction: GliderDirection): (p: seq<Cell>)
    ensures |p| == 9
  {
    match direction
    case NW => [Alive, Alive, Alive, Alive, Dead, Dead, Dead, Alive, Dead]
    case NE => [Alive, Alive, Alive, Dead, Dead, Alive, Dead, Alive, Dead]
    case SW => [Dead, Alive, Dead, Alive, Dead, Dead, Alive, Alive, Alive]
    case SE => [Dead, Alive, Dead, Dead, Dead, Alive, Alive, Alive, Alive]
  }

  /** The glider returned to the front end: the nine indexes written and the
      nine cells written there, in the same order. */
  datatype Glider = Glider(indexes: seq<nat>, cells: seq<Cell>)

  /** The indexes of the 3x3 neighbourhood of (row, column), wrapped around
      the torus, row-major from the top-left. */
  function GliderIndexes(rows: nat, columns: nat, row: nat, column: nat): (ix: seq<nat>)
    requires row < rows && column < columns
    ensures |ix| == 9
    ensures forall k :: 0 <= k < 9 ==> ix[k] < rows * columns
  {
    var up := Prev(rows, row);
    var down := Next(rows, row);
    var left := Prev(columns, column);
    var right := Next(columns, column);
    IndexInBounds(rows, columns, up, left);
    IndexInBounds(rows, columns, up, column);
    IndexInBounds(rows, columns, up, right);
    IndexInBounds(rows, columns, row, left);
    IndexInBounds(rows, columns, row, column);
    IndexInBounds(rows, columns, row, right);
    IndexInBounds(rows, columns, down, left);
    IndexInBounds(rows, columns, down, column);
    IndexInBounds(rows, columns, down, right);
    [ Index(columns, up, left), Index(columns, up, column), Index(columns, up, right),
      Index(columns, row, left), Index(columns, row, column), Index(columns, row, right),
      Index(columns, down, left), Index(columns, down, column), Index(columns, down, right) ]
  }

  /** Position `k` of `indexes` is the last position that writes its index. */
  predicate LastWrite(indexes: seq<nat>, k: nat)
    requires k < |indexes|
  {
    forall m :: k < m < |indexes| ==> indexes[m] != indexes[k]
  }

  /** Some position writes `j` last, if any does. */
  lemma LastOccurrence(indexes: seq<nat>, j: nat) returns (k: nat)
    requires j in indexes
    ensures k < |indexes| && indexes[k] == j && LastWrite(indexes, k)
  {
    k := |indexes| - 1;
    while indexes[k] != j
      invariant k < |indexes|
      invariant j in indexes[..k + 1]
      invariant forall m :: k < m < |indexes| ==> indexes[m] != j
      decreases k
    {
      assert indexes[..k + 1] == indexes[..k] + [indexes[k]];
      k := k - 1;
    }
  }

  /** Assigns `values[k]` to `cells[indexes[k]]` for k = 0, 1, ... in order:
      an index not written keeps its value, and a written index ends up with
      the value of its last write. */
  function WriteCells<T>(cells: seq<T>, indexes: seq<nat>, values: seq<T>): (r: seq<T>)
    requires |indexes| == |values|
    requires forall k :: 0 <= k < |indexes| ==> indexes[k] < |cells|
    ensures |r| == |cells|
    ensures forall j :: 0 <= j < |cells| && j !in indexes ==> r[j] == cells[j]
    ensures forall k :: 0 <= k < |indexes| && LastWrite(indexes, k) ==> r[indexes[k]] == values[k]
    decreases |indexes|
  {
    if |indexes| == 0 then cells
    else
      var rest := WriteCells(cells[indexes[0] := values[0]], indexes[1..], values[1..]);
      assert forall k :: 1 <= k < |indexes| && LastWrite(indexes, k) ==> LastWrite(indexes[1..], k - 1);
      rest
  }

  /** Stamps the direction's pattern onto the 3x3 neighbourhood of
      (row, column), wrapping at the edges. The cells are assigned, not
      flipped; the change codes and the second buffer are untouched. */
  function ToggleGlider(u: Universe, row: nat, column: nat, direction: GliderDirection): (r: (Universe, Glider))
    requires u.Valid() && row < u.rows && column < u.columns
    ensures r.0.Valid() && r.0.SameShape(u)
    ensures r.0.cellsNext == u.cellsNext && r.0.cellsChanged == u.cellsChanged
    ensures r.1.cells == Pattern(direction)
    ensures |r.1.indexes| == 9
    ensures r.1.indexes == GliderIndexes(u.rows, u.columns, row, column)
    ensures forall j :: 0 <= j < u.Size() && j !in r.1.indexes ==> r.0.cells[j] == u.cells[j]
    ensures forall k :: 0 <= k < 9 && LastWrite(r.1.indexes, k) ==>
      r.0.cells[r.1.indexes[k]] == Pattern(direction)[k]
  {
    var cells := Pattern(direction);
    var indexes := GliderIndexes(u.rows, u.columns, row, column);
    (u.(cells := WriteCells(u.cells, indexes, cells)), Glider(indexes, cells))
  }

  /** Seeds every cell. Blank makes every cell Dead with code 1. Random makes
      cell `i` Alive with code 2 when `draw(i)` holds (the source's uniform
      draw falling below 0.1) and Dead with code 1 otherwise. */
  function Populate(u: Universe, mode: StartMode, draw: nat -> bool): (v: Universe)
    requires u.Valid()
    ensures v.Valid() && v.SameShape(u) && v.cellsNext == u.cellsNext
    ensures mode == Blank ==> forall i :: 0 <= i < u.Size() ==>
      v.cells[i] == Dead && v.cellsChanged[i] == NOW_DEAD
    ensures mode == Random ==> forall i :: 0 <= i < u.Size() ==>
      (v.cells[i] == Alive <==> draw(i))
    ensures forall i :: 0 <= i < u.Size() ==>
      v.cellsChanged[i] == (if v.cells[i] == Alive then NOW_ALIVE else NOW_DEAD)
  {
    var n := u.Size();
    match mode
    case Random =>
      u.(cells := seq(n, i requires 0 <= i < n => if draw(i) then Alive else Dead),
         cellsChanged := seq(n, i requires 0 <= i < n => if draw(i) then NOW_ALIVE else NOW_DEAD))
    case Blank =>
      u.(cells := seq(n, _ => Dead), cellsChanged := seq(n, _ => NOW_DEAD))
  }

  /** A fresh universe: all three buffers of length rows * columns, every
      cell Dead, every change code 0. */
  function New(rows: nat, columns: nat): (u: Universe)
    requires rows < U32_LIMIT && columns < U32_LIMIT && rows * columns < U32_LIMIT
    ensures u.Valid() && u.rows == rows && u.columns == columns
    ensures |u.cells| == rows * columns
    ensures forall i :: 0 <= i < rows * columns ==>
      u.cells[i] == Dead && u.cellsNext[i] == Dead && u.cellsChanged[i] == UNCHANGED
  {
    var size := rows * columns;
    Universe(columns, rows, seq(size, _ => Dead), seq(size, _ => Dead), seq(size, _ => UNCHANGED))
  }
}
