/**
 The geometry of a sudoku grid with sector dimension n: n*n columns and rows, cut into n*n sectors
 of n by n cells. Two cells are peers when they share a row, a column or a sector.
 */
module Geometry {

  /** A sector dimension. The source refuses anything below 1. */
  type Dimension = n: nat | 1 <= n witness 1

  datatype Cell = Cell(col: nat, row: nat)

  /** The grid dimension: the number of columns, of rows, of sectors and of values. */
  function Side(n: Dimension): (side: nat)
    ensures 1 <= n <= side
  {
    n * n
  }

  predicate InGrid(n: Dimension, c: Cell) {
    c.col < Side(n) && c.row < Side(n)
  }

  function CellSet(n: Dimension): (cells: set<Cell>)
    ensures forall c :: c in cells <==> InGrid(n, c)
  {
    set col, row | 0 <= col < Side(n) && 0 <= row < Side(n) :: Cell(col, row)
  }

  /** Which column of sectors a column belongs to, and likewise for rows. */
  function SectorOf(n: Dimension, k: nat): nat {
    k / n
  }

  predicate SameSector(n: Dimension, a: Cell, b: Cell) {
    SectorOf(n, a.col) == SectorOf(n, b.col) && SectorOf(n, a.row) == SectorOf(n, b.row)
  }

  predicate Peers(n: Dimension, a: Cell, b: Cell) {
    && InGrid(n, a)
    && InGrid(n, b)
    && a != b
    && (a.row == b.row || a.col == b.col || SameSector(n, a, b))
  }

  predicate Distinct<T(==)>(s: seq<T>) {
    forall i, j :: 0 <= i < j < |s| ==> s[i] != s[j]
  }

  function Without(cells: seq<Cell>, c: Cell): (r: seq<Cell>)
    ensures forall d :: d in r <==> d in cells && d != c
    ensures Distinct(cells) ==> Distinct(r)
    ensures Distinct(cells) && c in cells ==> |r| == |cells| - 1
    ensures c !in cells ==> |r| == |cells|
  {
    if cells == [] then []
    else
      var rest := Without(cells[1..], c);
      assert forall d :: d in cells <==> d == cells[0] || d in cells[1..];
      assert forall i :: 0 <= i < |rest| ==> rest[i] in rest;
      assert Distinct(cells) ==> cells[0] !in cells[1..];
      if cells[0] == c then rest else [cells[0]] + rest
  }

  function RowCells(n: Dimension, row: nat): seq<Cell> {
    seq(Side(n), col requires 0 <= col => Cell(col, row))
  }

  function ColCells(n: Dimension, col: nat): seq<Cell> {
    seq(Side(n), row requires 0 <= row => Cell(col, row))
  }

  /** The cells of the sector in the given column and row of sectors, left to right and then top to bottom. */
  function SectorCells(n: Dimension, sectorCol: nat, sectorRow: nat): seq<Cell> {
    seq(Side(n), k requires 0 <= k => Cell(n * sectorCol + k % n, n * sectorRow + k / n))
  }

  function SectorOthers(n: Dimension, c: Cell): seq<Cell> {
    Without(SectorCells(n, SectorOf(n, c.col), SectorOf(n, c.row)), c)
  }

  /** The cells a placed value is removed from, in the order of removal: row, column, then sector. */
  function Related(n: Dimension, c: Cell): seq<Cell> {
    Without(RowCells(n, c.row), c) + Without(ColCells(n, c.col), c) + SectorOthers(n, c)
  }

  /** The cells of the grid, left to right and then top to bottom. */
  function AllCells(n: Dimension): seq<Cell> {
    seq(Side(n) * Side(n), i requires 0 <= i => Cell(i % Side(n), i / Side(n)))
  }

  /** Left to right, then top to bottom. */
  predicate NotAfter(c: Cell, d: Cell) {
    c.row < d.row || (c.row == d.row && c.col <= d.col)
  }

  function Position(n: Dimension, c: Cell): nat {
    c.row * Side(n) + c.col
  }

  // ----- arithmetic

  lemma MultipleGap(m: nat, d: int)
    ensures 1 <= d ==> m <= m * d
    ensures d <= -1 ==> m * d <= 0 - m
  {
    if 1 <= d {
      assert m * d == m + m * (d - 1);
    } else if d <= -1 {
      assert m * d == m * (d + 1) - m;
    }
  }

  lemma DivModUnique(q: nat, r: nat, m: nat)
    requires r < m
    ensures (m * q + r) / m == q && (m * q + r) % m == r
  {
    var x := m * q + r;
    var d := x / m - q;
    assert m * d == m * (x / m) - m * q;
    MultipleGap(m, d);
  }

  lemma DivModBounds(k: nat, m: nat, limit: nat)
    requires 0 < m && k < m * limit
    ensures k / m < limit && k % m < m && m * (k / m) + k % m == k
  {
    var d := k / m - limit;
    assert m * d == m * (k / m) - m * limit;
    MultipleGap(m, d);
  }

  lemma LinearBound(q: nat, r: nat, m: nat, limit: nat)
    requires q < limit && r < m
    ensures m * q + r < m * limit
  {
    MultipleGap(m, limit - q);
    assert m * (limit - q) == m * limit - m * q;
  }

  // ----- rows, columns and sectors

  lemma SectorCellAt(n: Dimension, sectorCol: nat, sectorRow: nat, k: nat)
    requires sectorCol < n && sectorRow < n && k < Side(n)
    ensures var c := SectorCells(n, sectorCol, sectorRow)[k];
            InGrid(n, c) && SectorOf(n, c.col) == sectorCol && SectorOf(n, c.row) == sectorRow && n * (c.row % n) + c.col % n == k
  {
    DivModBounds(k, n, n);
    DivModUnique(sectorCol, k % n, n);
    DivModUnique(sectorRow, k / n, n);
    LinearBound(sectorCol, k % n, n, n);
    LinearBound(sectorRow, k / n, n, n);
  }

  lemma SectorCellOf(n: Dimension, c: Cell)
    requires InGrid(n, c)
    ensures c in SectorCells(n, SectorOf(n, c.col), SectorOf(n, c.row))
  {
    DivModBounds(c.col, n, n);
    DivModBounds(c.row, n, n);
    var x, y := c.col % n, c.row % n;
    LinearBound(y, x, n, n);
    DivModUnique(y, x, n);
    assert SectorCells(n, SectorOf(n, c.col), SectorOf(n, c.row))[n * y + x] == c;
  }

  lemma SectorContents(n: Dimension, sectorCol: nat, sectorRow: nat)
    requires sectorCol < n && sectorRow < n
    ensures Distinct(SectorCells(n, sectorCol, sectorRow))
    ensures forall c :: c in SectorCells(n, sectorCol, sectorRow)
                        <==> InGrid(n, c) && SectorOf(n, c.col) == sectorCol && SectorOf(n, c.row) == sectorRow
  {
    var cells := SectorCells(n, sectorCol, sectorRow);
    forall k: nat | k < Side(n)
      ensures var c := cells[k];
              InGrid(n, c) && SectorOf(n, c.col) == sectorCol && SectorOf(n, c.row) == sectorRow && n * (c.row % n) + c.col % n == k
    {
      SectorCellAt(n, sectorCol, sectorRow, k);
    }
    forall c | InGrid(n, c) && SectorOf(n, c.col) == sectorCol && SectorOf(n, c.row) == sectorRow
      ensures c in cells
    {
      SectorCellOf(n, c);
    }
  }

  lemma RowContents(n: Dimension, row: nat)
    ensures Distinct(RowCells(n, row))
    ensures forall c :: c in RowCells(n, row) <==> c.col < Side(n) && c.row == row
  {
    forall c: Cell | c.col < Side(n) && c.row == row
      ensures c in RowCells(n, row)
    {
      assert RowCells(n, row)[c.col] == c;
    }
  }

  lemma ColContents(n: Dimension, col: nat)
    ensures Distinct(ColCells(n, col))
    ensures forall c :: c in ColCells(n, col) <==> c.row < Side(n) && c.col == col
  {
    forall c: Cell | c.row < Side(n) && c.col == col
      ensures c in ColCells(n, col)
    {
      assert ColCells(n, col)[c.row] == c;
    }
  }

  lemma SectorIndexBound(n: Dimension, c: Cell)
    requires InGrid(n, c)
    ensures SectorOf(n, c.col) < n && SectorOf(n, c.row) < n
  {
    DivModBounds(c.col, n, n);
    DivModBounds(c.row, n, n);
  }

  /** The sector query gives exactly the other n*n - 1 cells of the sector, each of them once. */
  lemma SectorOthersExact(n: Dimension, c: Cell)
    requires InGrid(n, c)
    ensures Distinct(SectorOthers(n, c)) && |SectorOthers(n, c)| == Side(n) - 1
    ensures forall d :: d in SectorOthers(n, c) <==> InGrid(n, d) && SameSector(n, c, d) && d != c
  {
    SectorIndexBound(n, c);
    SectorContents(n, SectorOf(n, c.col), SectorOf(n, c.row));
  }

  lemma SectorSymmetry(n: Dimension, c: Cell, d: Cell)
    requires InGrid(n, c) && InGrid(n, d)
    ensures d in SectorOthers(n, c) <==> c in SectorOthers(n, d)
  {
    SectorOthersExact(n, c);
    SectorOthersExact(n, d);
  }

  /** The n*n sectors partition the grid: each holds n*n cells and every cell lies in exactly one of them. */
  lemma SectorsPartition(n: Dimension, c: Cell)
    requires InGrid(n, c)
    ensures forall sc: nat, sr: nat :: sc < n && sr < n ==>
      && |SectorCells(n, sc, sr)| == Side(n)
      && Distinct(SectorCells(n, sc, sr))
      && (c in SectorCells(n, sc, sr) <==> sc == SectorOf(n, c.col) && sr == SectorOf(n, c.row))
    ensures SectorOf(n, c.col) < n && SectorOf(n, c.row) < n
  {
    SectorIndexBound(n, c);
    forall sc: nat, sr: nat | sc < n && sr < n
      ensures Distinct(SectorCells(n, sc, sr))
      ensures c in SectorCells(n, sc, sr) <==> sc == SectorOf(n, c.col) && sr == SectorOf(n, c.row)
    {
      SectorContents(n, sc, sr);
    }
  }

  /** The cells a value is removed from are exactly the peers. */
  lemma RelatedExact(n: Dimension, c: Cell)
    requires InGrid(n, c)
    ensures forall d :: d in Related(n, c) <==> Peers(n, c, d)
  {
    RowContents(n, c.row);
    ColContents(n, c.col);
    SectorOthersExact(n, c);
  }

  /** A row, a column or a sector: n*n different cells that are all peers of one another. */
  predicate IsUnit(n: Dimension, unit: seq<Cell>) {
    && Distinct(unit)
    && |unit| == Side(n)
    && (forall c :: c in unit ==> InGrid(n, c))
    && (forall c, d :: c in unit && d in unit && c != d ==> Peers(n, c, d))
  }

  lemma RowIsUnit(n: Dimension, row: nat)
    requires row < Side(n)
    ensures IsUnit(n, RowCells(n, row))
  {
    RowContents(n, row);
  }

  lemma ColIsUnit(n: Dimension, col: nat)
    requires col < Side(n)
    ensures IsUnit(n, ColCells(n, col))
  {
    ColContents(n, col);
  }

  lemma SectorIsUnit(n: Dimension, sectorCol: nat, sectorRow: nat)
    requires sectorCol < n && sectorRow < n
    ensures IsUnit(n, SectorCells(n, sectorCol, sectorRow))
  {
    SectorContents(n, sectorCol, sectorRow);
  }

  // ----- the row-major listing of all cells

  lemma PositionInverse(n: Dimension, c: Cell)
    requires InGrid(n, c)
    ensures Position(n, c) < Side(n) * Side(n) && AllCells(n)[Position(n, c)] == c
  {
    LinearBound(c.row, c.col, Side(n), Side(n));
    DivModUnique(c.row, c.col, Side(n));
  }

  lemma CellAt(n: Dimension, i: nat)
    requires i < Side(n) * Side(n)
    ensures InGrid(n, AllCells(n)[i]) && Position(n, AllCells(n)[i]) == i
  {
    DivModBounds(i, Side(n), Side(n));
  }

  lemma AllCellsExact(n: Dimension)
    ensures Distinct(AllCells(n))
    ensures forall c :: c in AllCells(n) <==> InGrid(n, c)
  {
    forall i: nat | i < Side(n) * Side(n)
      ensures InGrid(n, AllCells(n)[i]) && Position(n, AllCells(n)[i]) == i
    {
      CellAt(n, i);
    }
    forall c | InGrid(n, c)
      ensures c in AllCells(n)
    {
      PositionInverse(n, c);
    }
  }

  lemma AllCellsOrdered(n: Dimension, i: nat, j: nat)
    requires i < j < Side(n) * Side(n)
    ensures NotAfter(AllCells(n)[i], AllCells(n)[j])
  {
    DivModBounds(i, Side(n), Side(n));
    DivModBounds(j, Side(n), Side(n));
    MultipleGap(Side(n), i / Side(n) - j / Side(n));
    assert Side(n) * (i / Side(n) - j / Side(n)) == Side(n) * (i / Side(n)) - Side(n) * (j / Side(n));
  }

  lemma OneCellGeometry()
    ensures CellSet(1) == {Cell(0, 0)}
  {
    assert forall c :: InGrid(1, c) <==> c.col < 1 && c.row < 1;
  }
}
