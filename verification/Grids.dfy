/**
 The grid of squares, changed in place. Each method is tied to the function that gives the candidates it leaves
 behind; what those functions mean is proved beside them.
 */
module Grids {
  import opened Geometry
  import opened Candidates
  import opened Options
  import opened Propagation
  import Clues
  import Deduction
  import Lines
  import Search
  import opened Squares

  class Grid {
    const sectorDimension: Dimension
    const gridDimension: nat
    const rows: seq<seq<Square>>
    ghost const squares: set<Square>
    ghost const cellOf: map<Square, Cell>

    /** The squares form an array of the grid's dimension, and none of them stands in two places. */
    ghost predicate Valid() {
      && gridDimension == Side(sectorDimension)
      && |rows| == gridDimension
      && (forall row :: 0 <= row < gridDimension ==> |rows[row]| == gridDimension)
      && Placed(rows, cellOf)
      && squares == cellOf.Keys
    }

    /** The map gives back the place of each square, so there is only one. */
    static ghost predicate Placed(rs: seq<seq<Square>>, at: map<Square, Cell>) {
      forall row, col :: 0 <= row < |rs| && 0 <= col < |rs[row]| ==>
        rs[row][col] in at && at[rs[row][col]] == Cell(col, row)
    }

    /** The candidates of every cell. */
    ghost function View(): (g: Board)
      requires Valid()
      reads squares
      ensures WellFormed(sectorDimension, g)
    {
      map c | c in CellSet(sectorDimension) :: rows[c.row][c.col].possibilities
    }

    /** What holds of a grid between calls of its public methods, though not in the midst of a propagation. */
    ghost predicate Consistent()
      requires Valid()
      reads squares
    {
      PeerConsistent(sectorDimension, View())
    }

    static method NewRow(n: Dimension, ghost rowIndex: nat) returns (row: seq<Square>, ghost at: map<Square, Cell>)
      ensures |row| == Side(n) && fresh(at.Keys)
      ensures forall i :: 0 <= i < |row| ==>
        row[i] in at && at[row[i]] == Cell(i, rowIndex) && row[i].possibilities == Digits(n)
    {
      row, at := [], map[];
      for i := 0 to Side(n)
        invariant |row| == i && fresh(at.Keys)
        invariant forall k :: 0 <= k < |row| ==>
          row[k] in at && at[row[k]] == Cell(k, rowIndex) && row[k].possibilities == Digits(n)
      {
        var square := new Square(Side(n));
        at := at[square := Cell(i, rowIndex)];
        row := row + [square];
      }
    }

    static method CopyRow(other: seq<Square>, ghost rowIndex: nat) returns (row: seq<Square>, ghost at: map<Square, Cell>)
      ensures |row| == |other| && fresh(at.Keys)
      ensures forall i :: 0 <= i < |row| ==>
        row[i] in at && at[row[i]] == Cell(i, rowIndex) && row[i].possibilities == other[i].possibilities
    {
      row, at := [], map[];
      for i := 0 to |other|
        invariant |row| == i && fresh(at.Keys)
        invariant forall k :: 0 <= k < |row| ==>
          row[k] in at && at[row[k]] == Cell(k, rowIndex) && row[k].possibilities == other[k].possibilities
      {
        var square := new Square.Copy(other[i]);
        at := at[square := Cell(i, rowIndex)];
        row := row + [square];
      }
    }

    static method NewRows(n: Dimension) returns (rs: seq<seq<Square>>, ghost at: map<Square, Cell>)
      ensures |rs| == Side(n) && Placed(rs, at) && fresh(at.Keys)
      ensures forall i :: 0 <= i < |rs| ==> |rs[i]| == Side(n)
      ensures forall i, k :: 0 <= i < |rs| && 0 <= k < |rs[i]| ==> rs[i][k].possibilities == Digits(n)
    {
      rs, at := [], map[];
      for i := 0 to Side(n)
        invariant |rs| == i && Placed(rs, at) && fresh(at.Keys)
        invariant forall j :: 0 <= j < |rs| ==> |rs[j]| == Side(n)
        invariant forall j, k :: 0 <= j < |rs| && 0 <= k < |rs[j]| ==> rs[j][k].possibilities == Digits(n)
      {
        var row, here := NewRow(n, i);
        rs, at := rs + [row], at + here;
      }
    }

    static method CopyRows(other: seq<seq<Square>>) returns (rs: seq<seq<Square>>, ghost at: map<Square, Cell>)
      ensures |rs| == |other| && Placed(rs, at) && fresh(at.Keys)
      ensures forall i :: 0 <= i < |rs| ==> |rs[i]| == |other[i]|
      ensures forall i, k :: 0 <= i < |rs| && 0 <= k < |rs[i]| ==> rs[i][k].possibilities == other[i][k].possibilities
    {
      rs, at := [], map[];
      for i := 0 to |other|
        invariant |rs| == i && Placed(rs, at) && fresh(at.Keys)
        invariant forall j :: 0 <= j < |rs| ==> |rs[j]| == |other[j]|
        invariant forall j, k :: 0 <= j < |rs| && 0 <= k < |rs[j]| ==>
          rs[j][k].possibilities == other[j][k].possibilities
      {
        var row, here := CopyRow(other[i], i);
        rs, at := rs + [row], at + here;
      }
    }

    constructor (n: Dimension)
      ensures Valid() && sectorDimension == n && View() == Fresh(n) && Consistent()
      ensures fresh(squares)
    {
      var rs, at := NewRows(n);
      sectorDimension := n;
      gridDimension := Side(n);
      rows := rs;
      cellOf := at;
      squares := at.Keys;
      new;
      assert View() == Fresh(n);
      Clues.FreshSettled(n);
    }

    constructor Copy(other: Grid)
      requires other.Valid()
      ensures Valid() && sectorDimension == other.sectorDimension && View() == other.View()
      ensures fresh(squares)
    {
      var rs, at := CopyRows(other.rows);
      sectorDimension := other.sectorDimension;
      gridDimension := other.gridDimension;
      rows := rs;
      cellOf := at;
      squares := at.Keys;
    }

    // ----- placing values and propagating

    method SetSquareValue(colIndex: int, rowIndex: int, value: Value) returns (ok: bool)
      requires Valid()
      modifies squares
      ensures ok <==> 0 <= colIndex < gridDimension && 0 <= rowIndex < gridDimension
      ensures ok ==> View() == Place(sectorDimension, old(View()), Cell(colIndex, rowIndex), value)
      ensures !ok ==> View() == old(View())
      ensures old(Consistent()) ==> Consistent()
    {
      if !(0 <= colIndex < gridDimension && 0 <= rowIndex < gridDimension) {
        return false;
      }
      var c := Cell(colIndex, rowIndex);
      rows[rowIndex][colIndex].SetValue(value);
      assert View() == old(View())[c := {value}];
      RemoveRelatedPossibilities(colIndex, rowIndex, value);
      if old(Consistent()) {
        PlaceConsistent(sectorDimension, old(View()), c, value);
      }
      return true;
    }

    method RemoveRelatedPossibilities(colIndex: nat, rowIndex: nat, possibility: Value)
      requires Valid() && colIndex < gridDimension && rowIndex < gridDimension
      modifies squares
      ensures View() == RemoveRelated(sectorDimension, old(View()), Cell(colIndex, rowIndex), possibility)
      decreases Pairs(View()), 1
    {
      ghost var n := sectorDimension;
      var c := Cell(colIndex, rowIndex);
      RelatedExact(n, c);
      var inRow := Without(RowCells(sectorDimension, rowIndex), c);
      var inCol := Without(ColCells(sectorDimension, colIndex), c);
      var inSector := GetSquaresInSector(colIndex, rowIndex);
      assert Related(n, c) == inRow + inCol + inSector;
      assert forall d :: d in inRow || d in inCol || d in inSector ==> d in Related(n, c);

      RemoveFromSquares(inRow, possibility);
      BelowPairs(View(), old(View()));
      RemoveFromSquares(inCol, possibility);
      BelowPairs(View(), old(View()));
      RemoveFromSquares(inSector, possibility);
      RemoveFromAllSplit(n, old(View()), inRow, inCol, possibility);
      RemoveFromAllSplit(n, old(View()), inRow + inCol, inSector, possibility);
    }

    /** The body shared by the three loops over row, column and sector. */
    method RemoveFromSquares(cells: seq<Cell>, possibility: Value)
      requires Valid() && forall d :: d in cells ==> InGrid(sectorDimension, d)
      modifies squares
      ensures View() == RemoveFromAll(sectorDimension, old(View()), cells, possibility)
      decreases Pairs(View()), 0, 2
    {
      hide View, Valid, RemoveFromAll;
      ghost var n, start := sectorDimension, View();
      ghost var goal := RemoveFromAll(n, start, cells, possibility);
      RemoveFromNone(n, start, cells, possibility);
      for i := 0 to |cells|
        invariant Below(View(), start)
        invariant RemoveFromAll(n, View(), cells[i..], possibility) == goal
      {
        ghost var g := View();
        BelowPairs(g, start);
        RemoveFromSquare(cells, i, i + 1, possibility);
        BelowTransitive(View(), g, start);
      }
      RemoveFromNone(n, View(), cells, possibility);
    }

    method RemoveFromSquare(cells: seq<Cell>, i: nat, ghost next: nat, possibility: Value)
      requires Valid() && i < |cells| && next == i + 1 && forall d :: d in cells ==> InGrid(sectorDimension, d)
      modifies squares
      ensures Below(View(), old(View()))
      ensures RemoveFromAll(sectorDimension, old(View()), cells[i..], possibility)
              == RemoveFromAll(sectorDimension, View(), cells[next..], possibility)
      decreases Pairs(View()), 0, 1
    {
      var c := cells[i];
      assert c in cells;
      RemovePossibility(c.col, c.row, possibility);
      RemoveNext(sectorDimension, old(View()), View(), cells, i, next, possibility);
    }

    method RemovePossibility(colIndex: nat, rowIndex: nat, possibility: Value)
      requires Valid() && colIndex < gridDimension && rowIndex < gridDimension
      modifies squares
      ensures View() == Remove(sectorDimension, old(View()), Cell(colIndex, rowIndex), possibility)
      decreases Pairs(View()), 0, 0
    {
      ghost var c, g := Cell(colIndex, rowIndex), View();
      var square := rows[rowIndex][colIndex];
      var existed := square.RemovePossibility(possibility);
      assert View() == g[c := g[c] - {possibility}];
      if existed {
        RemovalShrinks(g, c, possibility);
        var value := square.GetValue();
        RemoveUnfold(sectorDimension, g, c, possibility);
        assert square.possibilities == View()[c];
        if value.Some? {
          RemoveRelatedPossibilities(colIndex, rowIndex, value.value);
        }
      } else {
        assert g[c] - {possibility} == g[c];
        assert View() == g;
      }
    }

    /** The cells of the given cell's sector without the cell itself. */
    function GetSquaresInSector(colIndex: nat, rowIndex: nat): (cells: seq<Cell>)
      requires Valid() && colIndex < gridDimension && rowIndex < gridDimension
      ensures |cells| == gridDimension - 1 && Distinct(cells)
      ensures forall d :: d in cells <==> InGrid(sectorDimension, d) && d != Cell(colIndex, rowIndex)
                                          && SameSector(sectorDimension, Cell(colIndex, rowIndex), d)
    {
      SectorOthersExact(sectorDimension, Cell(colIndex, rowIndex));
      SectorOthers(sectorDimension, Cell(colIndex, rowIndex))
    }

    // ----- queries

    function SquareAt(c: Cell): (square: Square)
      requires Valid() && InGrid(sectorDimension, c)
      ensures square in squares
    {
      rows[c.row][c.col]
    }

    predicate IsPossible()
      requires Valid()
      reads squares
      ensures IsPossible() <==> Possible(View())
    {
      forall c :: c in CellSet(sectorDimension) ==> SquareAt(c).IsPossible()
    }

    predicate IsComplete()
      requires Valid()
      reads squares
      ensures IsComplete() <==> Complete(View())
    {
      forall c :: c in CellSet(sectorDimension) ==> SquareAt(c).GetValue().Some?
    }

    // ----- deducing values

    predicate MustBeValueByRow(targetSquare: Square, rowIndex: nat, possibility: Value)
      requires Valid() && rowIndex < gridDimension
      reads squares
    {
      forall d :: d in RowCells(sectorDimension, rowIndex) && InGrid(sectorDimension, d) && SquareAt(d) != targetSquare ==>
        !SquareAt(d).HasPossibility(possibility)
    }

    predicate MustBeValueByCol(colIndex: nat, rowIndex: nat, possibility: Value)
      requires Valid() && colIndex < gridDimension
      reads squares
    {
      forall index :: 0 <= index < gridDimension && index != rowIndex ==>
        !SquareAt(Cell(colIndex, index)).HasPossibility(possibility)
    }

    predicate MustBeValueBySector(colIndex: nat, rowIndex: nat, possibility: Value)
      requires Valid() && colIndex < gridDimension && rowIndex < gridDimension
      reads squares
    {
      forall d :: d in GetSquaresInSector(colIndex, rowIndex) ==> !SquareAt(d).HasPossibility(possibility)
    }

    lemma RowTestMeaning(colIndex: nat, rowIndex: nat, possibility: Value)
      requires Valid() && colIndex < gridDimension && rowIndex < gridDimension
      ensures Deduction.NowhereElse(View(), Without(RowCells(sectorDimension, rowIndex), Cell(colIndex, rowIndex)),
                                    possibility)
              <==> MustBeValueByRow(rows[rowIndex][colIndex], rowIndex, possibility)
    {
      RowContents(sectorDimension, rowIndex);
    }

    lemma ColTestMeaning(colIndex: nat, rowIndex: nat, possibility: Value)
      requires Valid() && colIndex < gridDimension && rowIndex < gridDimension
      ensures Deduction.NowhereElse(View(), Without(ColCells(sectorDimension, colIndex), Cell(colIndex, rowIndex)),
                                    possibility)
              <==> MustBeValueByCol(colIndex, rowIndex, possibility)
    {
      ColContents(sectorDimension, colIndex);
    }

    lemma SectorTestMeaning(colIndex: nat, rowIndex: nat, possibility: Value)
      requires Valid() && colIndex < gridDimension && rowIndex < gridDimension
      ensures Deduction.NowhereElse(View(), SectorOthers(sectorDimension, Cell(colIndex, rowIndex)), possibility)
              <==> MustBeValueBySector(colIndex, rowIndex, possibility)
    {
      var c := Cell(colIndex, rowIndex);
      SectorOthersExact(sectorDimension, c);
      assert GetSquaresInSector(colIndex, rowIndex) == SectorOthers(sectorDimension, c);
    }

    lemma MeaningOfTests(colIndex: nat, rowIndex: nat, possibility: Value)
      requires Valid() && colIndex < gridDimension && rowIndex < gridDimension
      ensures Deduction.MustBe(sectorDimension, View(), Cell(colIndex, rowIndex), possibility)
              <==> !Deduction.Elsewhere(sectorDimension, View(), Cell(colIndex, rowIndex), possibility)
    {
      hide View, Deduction.MustBe, Deduction.Elsewhere;
      Deduction.MustBeExact(sectorDimension, View(), Cell(colIndex, rowIndex), possibility);
    }

    /** Whether one of the three tests says that the square must have the value. */
    method MustBeValue(colIndex: nat, rowIndex: nat, possibility: Value) returns (forced: bool)
      requires Valid() && colIndex < gridDimension && rowIndex < gridDimension
      ensures View() == old(View())
      ensures forced <==> Deduction.MustBe(sectorDimension, View(), Cell(colIndex, rowIndex), possibility)
      ensures forced <==> !Deduction.Elsewhere(sectorDimension, View(), Cell(colIndex, rowIndex), possibility)
    {
      MeaningOfTests(colIndex, rowIndex, possibility);
      RowTestMeaning(colIndex, rowIndex, possibility);
      ColTestMeaning(colIndex, rowIndex, possibility);
      SectorTestMeaning(colIndex, rowIndex, possibility);
      forced := || MustBeValueByRow(rows[rowIndex][colIndex], rowIndex, possibility)
                || MustBeValueByCol(colIndex, rowIndex, possibility)
                || MustBeValueBySector(colIndex, rowIndex, possibility);
    }

    lemma MeaningOfDeduction(colIndex: nat, rowIndex: nat)
      requires Valid() && colIndex < gridDimension && rowIndex < gridDimension
      ensures Cell(colIndex, rowIndex) in View()
      ensures Deduction.IsLeastForced(sectorDimension, View(), Cell(colIndex, rowIndex),
                                      Deduction.Deduce(sectorDimension, View(), Cell(colIndex, rowIndex)))
    {
      hide View, Deduction.Deduce;
      Deduction.DeduceExact(sectorDimension, View(), Cell(colIndex, rowIndex));
    }

    method DeduceSquare(colIndex: nat, rowIndex: nat) returns (r: Option<Value>)
      requires Valid() && colIndex < gridDimension && rowIndex < gridDimension
      ensures View() == old(View())
      ensures r == Deduction.Deduce(sectorDimension, View(), Cell(colIndex, rowIndex))
      ensures Deduction.IsLeastForced(sectorDimension, View(), Cell(colIndex, rowIndex), r)
    {
      MeaningOfDeduction(colIndex, rowIndex);
      ghost var n, c, g := sectorDimension, Cell(colIndex, rowIndex), View();
      var square := rows[rowIndex][colIndex];
      assert square.possibilities == g[c];
      if !square.IsPossible() || square.GetValue().Some? {
        return None;
      }
      var possibilities := square.GetPossibilities();
      Deduction.FirstForcedIsDeduction(n, g, c, possibilities);
      for i := 0 to |possibilities|
        invariant View() == g
        invariant Deduction.FirstForced(n, g, c, possibilities[i..]) == Deduction.Deduce(n, g, c)
      {
        Deduction.FirstForcedStep(n, g, c, possibilities, i);
        var forced := MustBeValue(colIndex, rowIndex, possibilities[i]);
        if forced {
          return Some(possibilities[i]);
        }
      }
      return None;
    }

    lemma GridDimension()
      requires Valid()
      ensures gridDimension == Side(sectorDimension) >= 1
    {
    }

    /** Deduces and places values until a whole round of the grid brings none, or the grid turns impossible. */
    method Refine()
      requires Valid()
      modifies squares
      ensures View() == Deduction.Refine(sectorDimension, old(View()))
      ensures old(Consistent()) ==> Consistent()
    {
      hide Place, View, Valid, Pairs, Deduction.Scan, Deduction.ScanLeft, Side;
      ghost var n, start := sectorDimension, View();
      ghost var goal := Deduction.Refine(n, start);
      GridDimension();
      var targetIndexes: Option<Cell> := None;
      var colIndex: nat, rowIndex: nat := 0, 0;
      while Some(Cell(colIndex, rowIndex)) != targetIndexes
        invariant colIndex < gridDimension && rowIndex < gridDimension
        invariant targetIndexes.Some? ==> InGrid(n, targetIndexes.value)
        invariant Deduction.Scan(n, View(), Cell(colIndex, rowIndex), targetIndexes) == goal
        decreases Pairs(View()), Deduction.ScanLeft(n, Cell(colIndex, rowIndex), targetIndexes)
      {
        ghost var c, g := Cell(colIndex, rowIndex), View();
        Deduction.ScanStep(n, g, c, targetIndexes);
        var deducedValue := DeduceSquare(colIndex, rowIndex);
        if deducedValue.Some? {
          var ok := SetSquareValue(colIndex, rowIndex, deducedValue.value);
          assert View() == Place(n, g, c, deducedValue.value);
          if !IsPossible() {
            break;
          }
        }
        if targetIndexes.None? || deducedValue.Some? {
          targetIndexes := Some(Cell(colIndex, rowIndex));
        }
        var next := Deduction.Next(sectorDimension, Cell(colIndex, rowIndex));
        colIndex, rowIndex := next.col, next.row;
      }
      if Some(Cell(colIndex, rowIndex)) == targetIndexes {
        Deduction.ScanStop(n, View(), Cell(colIndex, rowIndex));
      }
      if old(Consistent()) {
        Deduction.RefineConsistent(n, start);
      }
    }

    // ----- splitting

    function CountPossibilities(c: Cell): (count: nat)
      requires Valid() && InGrid(sectorDimension, c)
      reads squares
      ensures count == |View()[c]|
    {
      |SquareAt(c).GetPossibilities()|
    }

    /** A copy of this grid in which the value is put in the cell. */
    method CopyWithValue(c: Cell, value: Value) returns (copy: Grid)
      requires Valid() && InGrid(sectorDimension, c)
      ensures copy.Valid() && fresh(copy.squares) && copy.sectorDimension == sectorDimension
      ensures View() == old(View())
      ensures copy.View() == Place(sectorDimension, old(View()), c, value)
    {
      hide Place;
      copy := new Grid.Copy(this);
      copy.SetInside(c, value);
    }

    method SetInside(c: Cell, value: Value)
      requires Valid() && InGrid(sectorDimension, c)
      modifies squares
      ensures View() == Place(sectorDimension, old(View()), c, value)
    {
      var ok := SetSquareValue(c.col, c.row, value);
    }

    /** The cells with two or more possibilities, in row-major order. */
    method SplitCandidates() returns (indexes: seq<Cell>)
      requires Valid()
      ensures indexes == Search.SplitCandidates(sectorDimension, View(), Side(sectorDimension) * Side(sectorDimension))
    {
      hide View;
      var cells := AllCells(sectorDimension);
      indexes := [];
      for k := 0 to |cells|
        invariant indexes == Search.SplitCandidates(sectorDimension, View(), k)
      {
        CellAt(sectorDimension, k);
        if CountPossibilities(cells[k]) > 1 {
          indexes := indexes + [cells[k]];
        }
      }
    }

    /** The first of the cells with the fewest possibilities. */
    method FewestPossibilities(indexes: seq<Cell>) returns (c: Cell)
      requires Valid() && indexes != [] && forall d :: d in indexes ==> InGrid(sectorDimension, d)
      ensures c == Search.FirstFewest(View(), indexes)
    {
      ghost var g := View();
      c := indexes[0];
      for i := 1 to |indexes|
        invariant View() == g
        invariant c == Search.FirstFewest(g, indexes[..i])
      {
        Search.FirstFewestStep(g, indexes, i);
        if CountPossibilities(indexes[i]) < CountPossibilities(c) {
          c := indexes[i];
        }
      }
      assert indexes[..|indexes|] == indexes;
    }

    /** The grids show the given boards, none shares a square with another, and all squares are in the given set. */
    static ghost predicate SeparateGrids(n: Dimension, grids: seq<Grid>, boards: seq<Board>, all: set<Square>)
      reads all
      decreases |grids|
    {
      && |grids| == |boards|
      && (|grids| > 0 ==>
            var k := |grids| - 1;
            && grids[k].Valid() && grids[k].squares <= all
            && grids[k].sectorDimension == n && grids[k].View() == boards[k]
            && SeparateGrids(n, grids[..k], boards[..k], all - grids[k].squares))
    }

    static lemma {:induction false} SeparateElements(n: Dimension, grids: seq<Grid>, boards: seq<Board>, all: set<Square>)
      requires SeparateGrids(n, grids, boards, all)
      ensures |grids| == |boards|
      ensures forall i :: 0 <= i < |grids| ==>
        && grids[i].Valid() && grids[i].squares <= all
        && grids[i].sectorDimension == n && grids[i].View() == boards[i]
      ensures forall i, j :: 0 <= i < j < |grids| ==> grids[i].squares !! grids[j].squares
      decreases |grids|
    {
      if grids != [] {
        var k := |grids| - 1;
        SeparateElements(n, grids[..k], boards[..k], all - grids[k].squares);
        forall i | 0 <= i < k
          ensures grids[i].squares <= all - grids[k].squares
        {
          assert grids[..k][i] == grids[i];
        }
      }
    }

    static lemma SeparateAppend(n: Dimension, grids: seq<Grid>, boards: seq<Board>, all: set<Square>, grid: Grid)
      requires SeparateGrids(n, grids, boards, all)
      requires grid.Valid() && grid.sectorDimension == n && grid.squares !! all
      ensures SeparateGrids(n, grids + [grid], boards + [grid.View()], all + grid.squares)
    {
      assert (grids + [grid])[..|grids|] == grids;
      assert (boards + [grid.View()])[..|boards|] == boards;
      assert all + grid.squares - grid.squares == all;
    }

    static lemma {:induction false} SeparateConcat(n: Dimension, gs: seq<Grid>, boards: seq<Board>, all: set<Square>,
                                                   hs: seq<Grid>, others: seq<Board>, rest: set<Square>)
      requires SeparateGrids(n, gs, boards, all) && SeparateGrids(n, hs, others, rest) && all !! rest
      ensures SeparateGrids(n, gs + hs, boards + others, all + rest)
      decreases |hs|
    {
      hide Grid.Valid, Grid.View;
      if hs == [] {
        assert gs + hs == gs && boards + others == boards;
        SeparateWiden(n, gs, boards, all, all + rest);
      } else {
        var k := |hs| - 1;
        SeparateConcat(n, gs, boards, all, hs[..k], others[..k], rest - hs[k].squares);
        assert (gs + hs)[..|gs| + k] == gs + hs[..k];
        assert (boards + others)[..|gs| + k] == boards + others[..k];
        assert all + (rest - hs[k].squares) == all + rest - hs[k].squares;
      }
    }

    static lemma {:induction false} SeparateWiden(n: Dimension, grids: seq<Grid>, boards: seq<Board>,
                                                  all: set<Square>, more: set<Square>)
      requires SeparateGrids(n, grids, boards, all) && all <= more
      ensures SeparateGrids(n, grids, boards, more)
      decreases |grids|
    {
      if grids != [] {
        var k := |grids| - 1;
        SeparateWiden(n, grids[..k], boards[..k], all - grids[k].squares, more - grids[k].squares);
      }
    }

    static lemma SeparateNone(n: Dimension)
      ensures SeparateGrids(n, [], [], {})
    {
    }

    /** Copies of this grid, each with another of the values in the cell. */
    method CopiesWithValues(c: Cell, values: seq<Value>) returns (copies: seq<Grid>, ghost all: set<Square>)
      requires Valid() && InGrid(sectorDimension, c)
      ensures SeparateGrids(sectorDimension, copies, Search.Branches(sectorDimension, View(), c, values), all)
      ensures fresh(all)
    {
      hide Grid.View, SeparateGrids, Place;
      ghost var n, g := sectorDimension, View();
      ghost var boards: seq<Board> := [];
      copies, all := [], {};
      SeparateNone(n);
      for i := 0 to |values|
        invariant View() == g
        invariant boards == Search.Branches(n, g, c, values[..i])
        invariant SeparateGrids(n, copies, boards, all) && fresh(all)
      {
        Search.BranchesAppend(n, g, c, values, i);
        var copy := CopyWithValue(c, values[i]);
        SeparateAppend(n, copies, boards, all, copy);
        copies, boards, all := copies + [copy], boards + [copy.View()], all + copy.squares;
      }
      assert values[..|values|] == values;
    }

    /**
     New grids, one for each possibility of the chosen square. None is returned in place of the error the source
     raises when no square has two possibilities.
     */
    method Split() returns (copies: Option<seq<Grid>>, ghost all: set<Square>)
      requires Valid()
      ensures copies.Some? <==> Search.Splittable(View())
      ensures copies.Some? ==>
        SeparateGrids(sectorDimension, copies.value, Search.Split(sectorDimension, View()), all) && fresh(all)
    {
      var indexes := SplitCandidates();
      Search.ListedMinimumIsSplitCell(sectorDimension, View());
      all := {};
      if |indexes| == 0 {
        copies := None;
      } else {
        var c := FewestPossibilities(indexes);
        var gridCopies;
        gridCopies, all := CopiesWithValues(c, SquareAt(c).GetPossibilities());
        copies := Some(gridCopies);
      }
    }

    // ----- printing

    lemma ViewAt(c: Cell)
      requires Valid() && InGrid(sectorDimension, c)
      ensures SquareAt(c).possibilities == View()[c]
    {
    }

    /** One character per square, left to right and then top to bottom; none for grids of dimension four and more. */
    method GetStateLine() returns (line: Option<string>)
      requires Valid()
      ensures line == Lines.StateLine(sectorDimension, View())
      ensures line.None? <==> 3 < sectorDimension
    {
      hide View, Lines.CellTexts, Lines.CellText, Lines.Decimal, AllCells;
      if sectorDimension > 3 {
        return None;
      }
      ghost var g := View();
      var cells := AllCells(sectorDimension);
      AllCellsExact(sectorDimension);
      var text := "";
      Lines.NoCellTexts(sectorDimension, g);
      for i := 0 to |cells|
        invariant View() == g && text == Lines.CellTexts(sectorDimension, g, i)
      {
        assert cells[i] in cells;
        ViewAt(cells[i]);
        Lines.NextCellText(sectorDimension, g, i);
        var value := SquareAt(cells[i]).GetValue();
        Lines.TextOfValue(g[cells[i]], value);
        text := text + if value.Some? then Lines.Decimal(value.value) else ".";
      }
      return Some(text);
    }
  }
}
