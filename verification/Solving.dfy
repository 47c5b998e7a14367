/** Solving a puzzle that is given as a line: parsing it and searching the grid for solutions. */
module Solving {
  import opened Geometry
  import opened Candidates
  import opened Options
  import opened Propagation
  import opened Enumeration
  import opened Grids
  import opened Lines
  import opened Parsing
  import opened Search
  import opened Solutions
  import opened Squares

  /** A filled-in sudoku that agrees with the line. */
  ghost predicate Solves(n: Dimension, s: Assignment, line: string) {
    |line| == Side(n) * Side(n) && ValidSudoku(n, s) && AgreesWithLine(n, s, line)
  }

  /** The line is accepted, and none of its digits is out of range, as holds for all digits if it has 81 characters. */
  predicate Proper(line: string) {
    Parse(line).Parsed? && LineInRange(Parse(line).n, line)
  }

  lemma ReportsOfLine(line: string, s: Assignment)
    requires Proper(line)
    ensures WellFormed(Parse(line).n, Parse(line).grid)
    ensures (exists i :: ShownAt(s, Reports(Parse(line).n, Parse(line).grid), i)) <==> Solves(Parse(line).n, s, line)
  {
    hide Parse, Reports, ValidSudoku, AgreesWithLine, LineInRange;
    SearchSolvesLine(line, s);
  }

  /** No two of the grids show the assignment. */
  ghost predicate NoneTwice(solutions: seq<Solution>, s: Assignment)
    reads set k, x | 0 <= k < |solutions| && x in solutions[k].0.squares :: x
  {
    forall i, j :: YieldShows(solutions, i, s) && YieldShows(solutions, j, s) ==> i == j
  }

  /** All solutions of a line; None stands for the ValueError of a line that is not accepted. */
  method AllSolutions(line: string) returns (r: Option<seq<Solution>>, ghost all: set<Square>)
    ensures r.Some? <==> (|line| == 1 || |line| == 16 || |line| == 81)
                         && forall i :: 0 <= i < |line| ==> line[i] == '.' || '0' <= line[i] <= '9'
    ensures r.Some? && Proper(line) ==>
      forall s ::
        && ((exists i :: YieldShows(r.value, i, s)) <==> Solves(Parse(line).n, s, line))
        && NoneTwice(r.value, s)
  {
    hide Parse, Reports, Solves, LineInRange, Grid.Valid, Grid.View, ValidSudoku;
    all := {};
    var puzzle := ParseLine(line);
    if puzzle.None? {
      return None, all;
    }
    ghost var n, g := puzzle.value.sectorDimension, puzzle.value.View();
    var solutions;
    solutions, all := Generate(puzzle.value);
    if Proper(line) {
      forall s
        ensures (exists i :: YieldShows(solutions, i, s)) <==> Solves(n, s, line)
        ensures NoneTwice(solutions, s)
      {
        YieldedLine(line, solutions, all, s);
      }
    }
    return Some(solutions), all;
  }

  lemma YieldedLine(line: string, solutions: seq<Solution>, all: set<Square>, s: Assignment)
    requires Proper(line) && WellFormed(Parse(line).n, Parse(line).grid)
    requires Yielded(Parse(line).n, solutions, Reports(Parse(line).n, Parse(line).grid), all)
    ensures (exists i :: YieldShows(solutions, i, s)) <==> Solves(Parse(line).n, s, line)
    ensures NoneTwice(solutions, s)
  {
    hide Parse, Reports, ValidSudoku, AgreesWithLine, LineInRange, Yielded, YieldShows;
    YieldedSolveLine(line, solutions, all, s);
  }

  datatype Outcome = ValueError | NoSolution | Found(grid: Grid, splits: nat)

  /** The first solution of a line with the number of splits it took. */
  method FirstSolution(line: string) returns (r: Outcome, ghost s: Option<Assignment>)
    ensures !r.ValueError? <==> (|line| == 1 || |line| == 16 || |line| == 81)
                                && forall i :: 0 <= i < |line| ==> line[i] == '.' || '0' <= line[i] <= '9'
    ensures r.Found? ==> r.grid.Valid() && s.Some? && r.grid.View() == Shown(s.value)
    ensures r.Found? && Proper(line) ==> Solves(Parse(line).n, s.value, line)
    ensures r.NoSolution? && Proper(line) ==> forall t :: !Solves(Parse(line).n, t, line)
  {
    hide Parse, Reports, Solves, LineInRange, ValidSudoku, Grid.View;
    s := None;
    var puzzle := ParseLine(line);
    if puzzle.None? {
      return Outcome.ValueError, s;
    }
    ghost var n, g := puzzle.value.sectorDimension, puzzle.value.View();
    var generator := new SolutionGenerator(puzzle.value);
    var solution, squares := generator.Next();
    if solution.None? {
      NoReport(line, n, g);
      return NoSolution, s;
    }
    s := FirstReport(line, n, g);
    return Found(solution.value.0, solution.value.1), s;
  }

  lemma NoReport(line: string, n: Dimension, g: Board)
    requires Parse(line) == Parsed(n, g) && WellFormed(n, g) && Reports(n, g) == []
    ensures Proper(line) ==> forall t :: !Solves(n, t, line)
  {
    hide Parse, Reports, Solves, LineInRange;
    if Proper(line) {
      forall t
        ensures !Solves(n, t, line)
      {
        ReportsOfLine(line, t);
      }
    }
  }

  lemma FirstReport(line: string, n: Dimension, g: Board) returns (s: Option<Assignment>)
    requires Parse(line) == Parsed(n, g) && WellFormed(n, g) && PeerConsistent(n, g) && Reports(n, g) != []
    ensures s.Some? && Reports(n, g)[0].grid == Shown(s.value)
    ensures Proper(line) ==> Solves(n, s.value, line)
  {
    hide Parse, Reports, Solves, LineInRange, PeerConsistent, Shown;
    var t := ReportShowsSolution(n, g, Reports(n, g)[0]);
    s := Some(t);
    if Proper(line) {
      ReportsOfLine(line, t);
      assert ShownAt(t, Reports(n, g), 0);
    }
  }
}
