/** Building a grid from a line of clues. */
module Parsing {
  import opened Geometry
  import opened Candidates
  import opened Options
  import opened Clues
  import opened Grids
  import opened Propagation
  import Lines

  /** The grid is what the first i characters of the line make of an empty one. */
  ghost predicate FilledTo(grid: Grid, line: string, i: nat)
    requires grid.Valid()
    reads grid.squares
  {
    var n := grid.sectorDimension;
    && i <= |line| == Side(n) * Side(n)
    && Lines.Readable(line[..i]) && CluesIn(n, Lines.LineClues(n, line[..i]))
    && grid.View() == PlaceAll(n, Fresh(n), Lines.LineClues(n, line[..i]))
  }

  /** Places the clue that a character stands for; false if the character stands for nothing. */
  method PlaceCharacter(grid: Grid, line: string, i: nat) returns (readable: bool)
    requires grid.Valid() && i < |line| && FilledTo(grid, line, i)
    modifies grid.squares
    ensures readable <==> Lines.Readable(line[..i + 1])
    ensures readable <==> line[i] == '.' || '0' <= line[i] <= '9'
    ensures readable ==> FilledTo(grid, line, i + 1)
    ensures line[i] == '.' || line[i] == '0' ==> grid.View() == old(grid.View())
  {
    hide PlaceAll, Place, Fresh, Lines.LineClues, Grid.View, Side;
    ghost var n := grid.sectorDimension;
    var character := line[i];
    Lines.ReadableNext(line, i);
    if character == '.' || character == '0' {
      Lines.PlaceNextCharacter(n, line, i);
      return true;
    } else if '1' <= character <= '9' {
      Lines.PlaceNextCharacter(n, line, i);
      var cell := AllCells(grid.sectorDimension)[i];
      var ok := grid.SetSquareValue(cell.col, cell.row, Lines.DigitValue(character));
      return true;
    } else {
      return false;
    }
  }

  method PlaceLine(grid: Grid, line: string) returns (readable: bool)
    requires grid.Valid() && |line| == Side(grid.sectorDimension) * Side(grid.sectorDimension)
    requires grid.View() == Fresh(grid.sectorDimension)
    modifies grid.squares
    ensures readable <==> Lines.Readable(line)
    ensures readable ==> FilledTo(grid, line, |line|)
  {
    assert line[..0] == "";
    for i := 0 to |line|
      invariant FilledTo(grid, line, i)
    {
      readable := PlaceCharacter(grid, line, i);
      if !readable {
        Lines.ReadableAll(line, i);
        return false;
      }
    }
    assert line[..|line|] == line;
    return true;
  }

  /** Builds a grid from a line of clues. None stands for the ValueError the source raises. */
  method ParseLine(line: string) returns (r: Option<Grid>)
    ensures r.None? <==> Lines.Parse(line).ValueError?
    ensures r.Some? <==> (|line| == 1 || |line| == 16 || |line| == 81)
                         && forall i :: 0 <= i < |line| ==> line[i] == '.' || '0' <= line[i] <= '9'
    ensures r.Some? ==> r.value.Valid() && fresh(r.value.squares) && r.value.Consistent()
    ensures r.Some? ==> Lines.Parse(line) == Lines.Parsed(r.value.sectorDimension, r.value.View())
  {
    Lines.LineAccepted(line);
    var dimension := Lines.SectorDimension(|line|);
    if dimension.None? {
      return None;
    }
    Lines.SectorDimensionIsFourthRoot(|line|, dimension.value);
    var newGrid := new Grid(dimension.value);
    var readable := PlaceLine(newGrid, line);
    if !readable {
      return None;
    }
    assert line[..|line|] == line;
    Lines.ParseConsistent(line);
    return Some(newGrid);
  }
}
