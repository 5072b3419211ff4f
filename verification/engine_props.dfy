/**
  Properties of the engine that relate several of its operations, or relate an
  operation to an independent reference definition: index decoding, the torus
  neighbourhood written with modular arithmetic, the toggle involution, the
  idempotence of the glider stamp, and what seeding can produce.
 */
module EngineProps {
  import opened Engine

  /** Decoding the flat index the way the front end does recovers the pair. */
  lemma IndexRoundTrip(rows: nat, columns: nat, row: nat, column: nat)
    requires row < rows && column < columns
    ensures Index(columns, row, column) < rows * columns
    ensures Index(columns, row, column) / columns == row
    ensures Index(columns, row, column) % columns == column
  {
    IndexInBounds(rows, columns, row, column);
    DivModUnique(columns, row, column, Index(columns, row, column));
  }

  /** Distinct in-bounds pairs have distinct indexes. */
  lemma IndexInjective(columns: nat, r1: nat, c1: nat, r2: nat, c2: nat)
    requires c1 < columns && c2 < columns
    ensures Index(columns, r1, c1) == Index(columns, r2, c2) <==> r1 == r2 && c1 == c2
  {
    DivModUnique(columns, r1, c1, Index(columns, r1, c1));
    DivModUnique(columns, r2, c2, Index(columns, r2, c2));
  }

  /** The coordinate `d` steps (d in -1, 0, 1) from `i` on a ring of `n`,
      written with modular arithmetic. */
  function Around(n: nat, i: nat, d: int): nat
    requires i < n && -1 <= d <= 1
  {
    (i + d + n) % n
  }

  /** The source's explicit edge tests compute exactly the modular wrap. */
  lemma AroundIsWrap(n: nat, i: nat, d: int)
    requires i < n && -1 <= d <= 1
    ensures d == -1 ==> Around(n, i, d) == Prev(n, i)
    ensures d == 0 ==> Around(n, i, d) == i
    ensures d == 1 ==> Around(n, i, d) == Next(n, i)
  {
    if d == -1 {
      if i == 0 {
        DivModUnique(n, 0, n - 1, i + d + n);
      } else {
        DivModUnique(n, 1, i - 1, i + d + n);
      }
    } else if d == 0 {
      DivModUnique(n, 1, i, i + d + n);
    } else {
      if i == n - 1 {
        DivModUnique(n, 2, 0, i + d + n);
      } else {
        DivModUnique(n, 1, i + 1, i + d + n);
      }
    }
  }

  /** The eight neighbour offsets (row, column) in the source's order. */
  const NEIGHBOR_OFFSETS: seq<(int, int)> :=
    [(-1, -1), (-1, 0), (-1, 1), (0, -1), (0, 1), (1, -1), (1, 0), (1, 1)]

  predicate SmallOffsets(offsets: seq<(int, int)>) {
    forall k :: 0 <= k < |offsets| ==> -1 <= offsets[k].0 <= 1 && -1 <= offsets[k].1 <= 1
  }

  /** Reference count: the Alive cells at the given offsets from
      (row, column), each coordinate reduced modulo the grid's size. */
  function TorusCount(u: Universe, row: nat, column: nat, offsets: seq<(int, int)>): nat
    requires u.Valid() && row < u.rows && column < u.columns
    requires SmallOffsets(offsets)
    decreases |offsets|
  {
    if |offsets| == 0 then 0
    else
      var r := Around(u.rows, row, offsets[0].0);
      var c := Around(u.columns, column, offsets[0].1);
      IndexInBounds(u.rows, u.columns, r, c);
      u.cells[Index(u.columns, r, c)].Value() + TorusCount(u, row, column, offsets[1..])
  }

  /** `live_neighbor_count` is the number of Alive cells among the eight
      torus neighbours, counted with multiplicity when the grid is so small
      that two neighbours coincide. */
  lemma LiveNeighborCountOnTorus(u: Universe, row: nat, column: nat)
    requires u.Valid() && row < u.rows && column < u.columns
    ensures LiveNeighborCount(u, row, column) == TorusCount(u, row, column, NEIGHBOR_OFFSETS)
  {
    AroundIsWrap(u.rows, row, -1);
    AroundIsWrap(u.rows, row, 0);
    AroundIsWrap(u.rows, row, 1);
    AroundIsWrap(u.columns, column, -1);
    AroundIsWrap(u.columns, column, 0);
    AroundIsWrap(u.columns, column, 1);
    var o := NEIGHBOR_OFFSETS;
    assert o[1..][1..][1..][1..][1..][1..][1..][1..] == [];
  }

  /** Toggling the same cell twice restores the universe. */
  lemma ToggleCellTwice(u: Universe, row: nat, column: nat)
    requires u.Valid() && row < u.rows && column < u.columns
    ensures ToggleCell(ToggleCell(u, row, column).0, row, column).0 == u
  {
    var once := ToggleCell(u, row, column).0;
    var twice := ToggleCell(once, row, column).0;
    assert twice.cells == u.cells;
  }

  /** The row and column offsets of position `k` of the 3x3 stamp. */
  function StampRow(k: nat): int { if k < 3 then -1 else if k < 6 then 0 else 1 }
  function StampColumn(k: nat): int { if k % 3 == 0 then -1 else if k % 3 == 1 then 0 else 1 }

  /** The glider's nine indexes are the 3x3 neighbourhood of (row, column)
      on the torus, row-major from the top-left. */
  lemma GliderIndexesOnTorus(rows: nat, columns: nat, row: nat, column: nat)
    requires row < rows && column < columns
    ensures forall k :: 0 <= k < 9 ==>
      GliderIndexes(rows, columns, row, column)[k]
        == Index(columns, Around(rows, row, StampRow(k)), Around(columns, column, StampColumn(k)))
  {
    AroundIsWrap(rows, row, -1);
    AroundIsWrap(rows, row, 0);
    AroundIsWrap(rows, row, 1);
    AroundIsWrap(columns, column, -1);
    AroundIsWrap(columns, column, 0);
    AroundIsWrap(columns, column, 1);
  }

  /** On a grid of at least 3x3 the nine stamped indexes are distinct. */
  lemma GliderIndexesDistinct(rows: nat, columns: nat, row: nat, column: nat)
    requires 3 <= rows && 3 <= columns && row < rows && column < columns
    ensures forall k, m :: 0 <= k < m < 9 ==>
      GliderIndexes(rows, columns, row, column)[k] != GliderIndexes(rows, columns, row, column)[m]
  {
    var ix := GliderIndexes(rows, columns, row, column);
    var vertical := [Prev(rows, row), row, Next(rows, row)];
    var horizontal := [Prev(columns, column), column, Next(columns, column)];
    forall k, m | 0 <= k < m < 9
      ensures ix[k] != ix[m]
    {
      assert ix[k] == Index(columns, vertical[k / 3], horizontal[k % 3]);
      assert ix[m] == Index(columns, vertical[m / 3], horizontal[m % 3]);
      IndexInjective(columns, vertical[k / 3], horizontal[k % 3], vertical[m / 3], horizontal[m % 3]);
    }
  }

  /** Number of Alive cells in a sequence. */
  function Census(cells: seq<Cell>): (n: nat)
    ensures n <= |cells|
  {
    if |cells| == 0 then 0 else cells[0].Value() + Census(cells[1..])
  }

  /** Every orientation of the glider has five live cells. */
  lemma GliderHasFiveLiveCells(direction: GliderDirection)
    ensures Census(Pattern(direction)) == 5
  {
    var p := Pattern(direction);
    assert p[0..] == p;
    CensusStep(p, 0);
    CensusStep(p, 1);
    CensusStep(p, 2);
    CensusStep(p, 3);
    CensusStep(p, 4);
    CensusStep(p, 5);
    CensusStep(p, 6);
    CensusStep(p, 7);
    CensusStep(p, 8);
  }

  lemma CensusStep(cells: seq<Cell>, i: nat)
    requires i < |cells|
    ensures Census(cells[i..]) == cells[i].Value() + Census(cells[i + 1..])
  {
    assert cells[i..][1..] == cells[i + 1..];
  }

  /** The glider stamp assigns rather than flips: stamping twice at the same
      place and direction gives the grid and the glider of stamping once. */
  lemma ToggleGliderIdempotent(u: Universe, row: nat, column: nat, direction: GliderDirection)
    requires u.Valid() && row < u.rows && column < u.columns
    ensures ToggleGlider(u, row, column, direction).0.Valid()
    ensures ToggleGlider(ToggleGlider(u, row, column, direction).0, row, column, direction)
         == ToggleGlider(u, row, column, direction)
  {
    var (once, glider) := ToggleGlider(u, row, column, direction);
    var (twice, glider') := ToggleGlider(once, row, column, direction);
    forall j | 0 <= j < u.Size()
      ensures twice.cells[j] == once.cells[j]
    {
      if j in glider.indexes {
        var k := LastOccurrence(glider.indexes, j);
      }
    }
    assert twice.cells == once.cells;
  }

  /** With a Random start every grid is a possible outcome of seeding. */
  lemma PopulateCanProduceAnyGrid(u: Universe, grid: seq<Cell>)
    requires u.Valid() && |grid| == u.Size()
    ensures exists draw: nat -> bool :: Populate(u, Random, draw).cells == grid
  {
    var draw := (i: nat) => i < |grid| && grid[i] == Alive;
    assert Populate(u, Random, draw).cells == grid;
  }

  /** On a grid with two rows the stamp's top and bottom rows are the same
      cells. The engine keeps the bottom row's values, but `drawGlider`
      paints every Alive entry after every Dead one, so the screen can
      disagree with the grid (`Canvas.SmallGliderOnScreen`). The example:
      the glider `toggle_glider` returns for a NW stamp at (0, 1) on a 2x4
      grid, whose top and bottom rows are both row 1. */
  const SMALL_GLIDER := Glider([4, 5, 6, 0, 1, 2, 4, 5, 6], Pattern(NW))

  /** The engine side of the two-row example: cell 4 is written Alive by the
      stamp's top row and Dead by its bottom row, and the last write wins. */
  lemma SmallGliderInEngine()
    ensures New(2, 4).Valid()
    ensures ToggleGlider(New(2, 4), 0, 1, NW).1 == SMALL_GLIDER
    ensures ToggleGlider(New(2, 4), 0, 1, NW).0.cells[4] == Dead
  {
    assert Prev(2, 0) == 1 && Next(2, 0) == 1;
    assert Prev(4, 1) == 0 && Next(4, 1) == 2;
    var ix := GliderIndexes(2, 4, 0, 1);
    assert ix == SMALL_GLIDER.indexes;
    assert LastWrite(ix, 6);
  }
}
