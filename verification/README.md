# Verification of the sudoku solver and of the SQLite shell's text routines

This project models two independent parts of the repository and proves what they are for.

**The Python sudoku solver** (`python/sudoku`), for every sector dimension n ≥ 1. A grid is modelled twice. The class
`Grids.Grid` holds `Squares.Square` objects that its methods change in place, with the mutual recursion, the loops and
the explicit stack of the source. The modules `Propagation`, `Deduction`, `Search` and `Lines` hold functions on
boards (maps from cells to candidate sets), and each method is tied to one of them. What the functions mean is proved
as lemmas. The main results are:

- Propagation breaks the consistency between peers while it runs and restores it at its end, even when a value is
  placed that had been removed before (`Propagation.RemoveRelatedConsistent`, with the cells still pending as a set).
- Propagation never removes anything that a consistent grid with the placed value uses. It follows that placing
  clues computes the greatest consistent grid that meets them, in whatever order they come.
- Each deduced value is forced, refinement keeps the completions exactly, and it ends at a true fixpoint.
- The search reports every completion of its start grid exactly once and nothing else; it ends, and no reported split
  count exceeds 2·P − 2 for a start grid with P ways to choose a candidate per cell.
- The loop with its explicit stack reports what a plain recursion over the grids finds, with the same counts; each count is
  the sum of the sizes of the splits made so far.
- A line is parsed without losing or inventing a solution. The order of its clues does not matter, and the printed state
  line is a normal form, under conditions that are proved to be exact.
- Refinement gives the greatest grid of its kind, so that the order of the scan makes no difference.

**Text routines of the SQLite shell** (`cpp/libraries/sqlite/src/shell.c`). Buffers are arrays changed in place, the
output stream is a field of the printer's class, and C strings are texts up to a NUL. The printed text of every
routine is given by a function, and an independent reader or decoder is proved to undo it: C escapes, quote doubling,
CSV rows, and rows of list mode against the column splitter of `.import`. `multireplace` is tied to leftmost,
first-listed substitution, for exactly the inputs for which its loop ends. For separators of several bytes the round trips
hold only under a condition on the fields, and the condition is proved to be exact.

## Where the code and its documentation differ

- `isComplete` says that a complete grid has to be a valid sudoku. Nothing checks that clues lie in 1..n·n, so a line of
  1 or 16 characters can produce a complete grid that is no sudoku (`Lines.CompleteButNoSudoku`). A complete parsed
  grid, and every grid the search reports, is a sudoku if and only if all digits of the line are in range
  (`Lines.CompleteIsSudokuIff`, `Lines.ReportIsSudokuIff`). Lines of 81 characters always are.
- A clue out of range can overwrite a cell that propagation has decided, while the cell's earlier value stays removed
  from its peers. So the result can depend on the order of the clues, and the state line need not be a normal form.
  `Orders.OrderFreeIff` and `Reparsing.StateLineNormalFormIff` give the exact conditions, for all clues and lines whose
  part in range is possible on its own; `Overwriting.OrderMatters` and `Overwriting.StateLineLosesOrder` are examples of
  dimension 2 that fail them.
- `output_csv` means to quote a field that contains the separator. For a separator of several bytes it compares the
  separator with the start of the field, so a field that contains it further on is printed bare
  (`Csv.LongSeparatorExample`). `Csv.ReadRowIff` says for exactly which rows the round trip holds.

## Reading order

`Geometry`, `Candidates`, `Propagation`, `Clues`, `Orders`, `Deduction`, `Search`, `Enumeration`, `Recursion`, `Lines`, `Reparsing` and
`Overwriting` are about boards; `Squares`, `Grids`, `Parsing`, `Solutions` and `Solving` hold the mutable objects. `Bytes`,
`Separators`, `Quoting`, `Csv`, `Escapes`, `Import` and `Substitution` are about texts and buffers; `Printers` holds the
routines that print. Classes keep the method names of the source; some loops have been moved to methods of their own,
named after what the loop does. The generator of `solutions.py` is a class with its local variables as fields.

## Model

| member | source | states |
|---|---|---|
| Geometry.SectorOthersExact | python/sudoku/grid.py:281-297 | The sector query gives exactly the other n·n − 1 cells of the sector, each once |
| Geometry.SectorSymmetry | python/sudoku/grid.py:281-297 | Being in the sector of another cell is symmetric |
| Geometry.SectorsPartition | python/sudoku/grid.py:286-293 | Every cell lies in exactly one of the n·n sectors, and each sector holds n·n different cells |
| Geometry.RelatedExact | python/sudoku/grid.py:239-262 | The cells a placed value is taken from are exactly the cells sharing its row, column or sector |
| Geometry.AllCellsExact | python/sudoku/parse.py:30-32 | The listing of cells visits every cell of the grid once |
| Geometry.AllCellsOrdered | python/sudoku/grid.py:169-171 | The listing of cells goes from left to right and then from top to bottom |
| Geometry.PositionInverse | python/sudoku/parse.py:30-32 | The character for a cell stands at row · side + column of the line |
| Candidates.FullUnitHoldsEveryValue | python/sudoku/grid.py:130-154 | Pigeonhole: n·n different values in range fill a row, column or sector with every value exactly once |
| Candidates.ValidSudokuIff | python/sudoku/grid.py:61-68 | An assignment is a filled-in sudoku if and only if its values are in range and differ between peers |
| Propagation.RemoveKeepsConsistency | python/sudoku/grid.py:265-278 | In the midst of a cascade, removing a possibility keeps consistency between all cells that are not pending |
| Propagation.RemoveRelatedConsistent | python/sudoku/grid.py:239-262 | Once a cell's value has been taken from its peers, the cell is pending no longer: the cascade restores what it broke |
| Propagation.PlaceConsistent | python/sudoku/grid.py:39-51 | Setting a square, even to a value removed before, keeps every decided cell's value out of its peers |
| Propagation.RemoveRelatedKeepsSettled | python/sudoku/grid.py:239-278 | A consistent grid below this one that has the value in the cell is still below it after the whole cascade |
| Propagation.RemoveRelatedJustified | python/sudoku/grid.py:239-278 | The cascade removes a candidate only if a peer of its cell is left with nothing but that, whether or not the grid stays possible |
| Propagation.PlaceSelectsCompletions | python/sudoku/grid.py:49-51 | For a candidate v of c, the completions after setting c to v are exactly the earlier ones with v in c |
| Propagation.CompleteGridIsSolution | python/sudoku/grid.py:61-68 | A complete consistent grid shows an assignment without conflicts, and that is its only completion |
| Clues.PlaceAllConsistent | python/sudoku/parse.py:30-36 | Whatever clues are placed, agreeing or not, the grid is peer consistent afterwards |
| Clues.PlaceAllBounds | python/sudoku/parse.py:30-36 | Each clue's cell ends up with at most the clue, any other cell with no candidate it did not have |
| Clues.PlaceAllGreatest | python/sudoku/parse.py:30-36 | Placing any clues leaves every consistent grid that meets them below it, and gives such a grid if and only if there is one |
| Clues.PlacementOrderIrrelevant | python/sudoku/parse.py:30-36 | From any grid, the order of clues that are candidates decides neither whether the result is possible nor what it then is |
| Clues.RangeKeptIffCluesInRange | python/sudoku/parse.py:30-36 | The grid keeps to values 1..n·n if and only if every clue does |
| Clues.OutOfRangeClueStays | python/sudoku/parse.py:30-36 | Among clues out of range, one stays in its cell through all later placements |
| Clues.OutOfRangeCluesHaveNoSolution | python/sudoku/parse.py:30-36 | With a clue out of range the grid has no completion in range |
| Clues.CluesLoseAndInventNothing | python/sudoku/parse.py:30-36 | A filled-in sudoku completes the grid built from clues if and only if it agrees with every clue |
| Orders.FitsBelowHighest | python/sudoku/grid.py:39-51 | With the clues out of range first, everything is left that any order could leave |
| Orders.OverwriteSurvives | python/sudoku/grid.py:39-51 | Whatever the order, what the clues in range leave survives elsewhere than in cells that are overwritten |
| Orders.BelowHighest | python/sudoku/parse.py:30-36 | No order of the same clues leaves anything possible beyond the order with the clues out of range first |
| Orders.AboveInside | python/sudoku/parse.py:30-36 | Every order of the same clues keeps what the clues in range leave on their own |
| Orders.NothingLostGivesHighest | python/sudoku/parse.py:30-36 | If no value is lost to a cell that is decided and then overwritten, every order gives the same possible grid |
| Orders.LostValueBreaksOrder | python/sudoku/parse.py:30-36 | If such a value is lost, two orders give different grids |
| Orders.OrderFreeIff | python/sudoku/parse.py:30-36 | The exact condition for the order of any clues not to matter: no order is possible, or no value is lost |
| Orders.InRangeOrderFree | python/sudoku/parse.py:30-36 | The order of clues in range never matters |
| Deduction.Deduce | python/sudoku/grid.py:108-128 | The deduction is the least candidate no other cell of some unit has; none for a decided or impossible cell |
| Deduction.DeductionUnique | python/sudoku/grid.py:108-128 | That description determines the deduction |
| Deduction.MustBeExact | python/sudoku/grid.py:121-154 | The tests fail exactly if another cell of the row, another one of the column and another one of the sector have the value |
| Deduction.DeduceExact | python/sudoku/grid.py:108-154 | The deduction is the least candidate that is missing from the rest of the row, column or sector; without one, each candidate is in another cell of all three |
| Deduction.FirstForcedIsDeduction | python/sudoku/grid.py:119-127 | Trying the possibilities in ascending order finds the deduction |
| Deduction.DeductionForced | python/sudoku/grid.py:121-154 | A deduced value is the cell's value in every completion of the grid |
| Deduction.NextDistance | python/sudoku/grid.py:95-105 | The cyclic scan comes one step closer to the stop marker, wherever that is, with every move |
| Deduction.ScanStep | python/sudoku/grid.py:79-105 | Each turn of the loop removes a candidate or comes closer to the marker, so the loop ends |
| Deduction.RefineReachesFixpoint | python/sudoku/grid.py:71-105 | Refinement ends impossible, or where no cell, not even the marked one, has a deduction left |
| Deduction.RefinedExact | python/sudoku/grid.py:71-154 | In a possible refined grid each candidate of an undecided cell is in another cell of its row, its column and its sector |
| Deduction.RefineDeductions | python/sudoku/grid.py:71-105 | Refinement places the deduction of the first cell in scan order that has one, again and again, and stops as soon as the grid is impossible |
| Deduction.RefineGreatest | python/sudoku/grid.py:71-105 | Refinement gives the greatest consistent grid below the start whose units have every value and that has no deduction left, if there is one |
| Deduction.RefineIdempotent | python/sudoku/grid.py:71-105 | Refining a possible refined grid changes nothing |
| Deduction.RefineKeepsCompletions | python/sudoku/grid.py:71-105 | An assignment completes the refined grid if and only if it completes the grid before |
| Deduction.RefineConsistent | python/sudoku/grid.py:71-105 | Refinement keeps a consistent grid consistent |
| Search.SplitCell | python/sudoku/grid.py:169-179 | The square to split is the first in row-major order of those with the fewest possibilities but at least two |
| Search.ListedMinimumIsSplitCell | python/sudoku/grid.py:163-179 | Listing the viable squares and taking the first minimum finds that square; the list is empty only if there is none |
| Search.SplitPartitions | python/sudoku/grid.py:181-190 | Every completion of a split grid completes exactly one of its parts, and the parts add none |
| Search.SplitPart | python/sudoku/grid.py:181-190 | Part i has the candidate of the split cell that exactly i others are smaller than |
| Search.SplitPartsShrink | python/sudoku/grid.py:181-190 | There are as many parts as possibilities, at least two, each with strictly fewer candidates and still consistent |
| Search.OpenExact | python/sudoku/solutions.py:29-37 | The parts that are stacked are the possible ones that are not complete, in the order of their candidates |
| Search.FinishedExact | python/sudoku/solutions.py:31-33 | The parts that are reported are the complete ones, in the order of their candidates, all with the same count |
| Search.StepExact | python/sudoku/solutions.py:17-41 | A turn takes the top of the stack, adds the number of candidates of the split cell to the count, and leaves the grids below as they are |
| Search.StepSound | python/sudoku/solutions.py:17-41 | A turn of the search keeps every stacked grid possible, consistent and below the start, every report complete too |
| Search.StepConserves | python/sudoku/solutions.py:17-41 | The stacked grids an assignment completes plus the reports that show it never grow in number, and from a start in range stay the same |
| Enumeration.ChosenChoices | python/sudoku/grid.py:186-188 | Choosing one of k candidates of a cell divides the number of choices of the grid by k |
| Enumeration.SplitCost | python/sudoku/grid.py:157-190 | Splitting P choices into k parts leaves open parts whose 2·P − d sum up to at most 2·P − k·d |
| Enumeration.StepCost | python/sudoku/solutions.py:15-43 | The splits so far plus the sum of 2·P − 2 over the stack never rise; the sum of 2·P − 1 strictly falls |
| Enumeration.RunConserves | python/sudoku/solutions.py:11-43 | Over a whole run, an assignment is reported at most as often as it completes a stacked grid or was reported before, from a start in range exactly |
| Enumeration.RunSound | python/sudoku/solutions.py:11-43 | Everything a run reports is complete, consistent and below the start grid |
| Enumeration.RunReports | python/sudoku/solutions.py:11-43 | What a run reports later does not depend on what was reported before |
| Enumeration.SearchExact | python/sudoku/solutions.py:3-43 | Only completions of the start grid are reported, never one twice; from a start in range every one is, and is a filled-in sudoku |
| Enumeration.ReportShowsSolution | python/sudoku/solutions.py:19-33 | Every reported grid shows an assignment without conflicts that lies below the start grid |
| Enumeration.SearchSplitBound | python/sudoku/solutions.py:13-33 | Reported split counts never fall and stay within 2·P − 2 for a start grid with P choices |
| Recursion.RunIsForest | python/sudoku/solutions.py:15-43 | From any stack the loop reports what a recursion over the grids finds, with the same counts |
| Recursion.SearchIsTree | python/sudoku/solutions.py:3-43 | The search reports what a recursion from the start grid finds: complete parts first, then the others, the last one first |
| Recursion.TurnsCount | python/sudoku/solutions.py:13-27 | The count after some turns is the sum of the sizes of the splits made in them |
| Recursion.ReportCount | python/sudoku/solutions.py:19-33 | The count of each report is the sum of the sizes of all splits made up to the turn it is made in |
| Recursion.SplitSizeExact | python/sudoku/solutions.py:25-27 | The size of a split is the number of candidates of the cell, and zero for a complete or impossible grid |
| Lines.SectorDimensionIsFourthRoot | python/sudoku/parse.py:11-26 | A length is accepted for dimension n if and only if n is at most 3 and the length is its fourth power |
| Lines.LineCluesExact | python/sudoku/parse.py:30-36 | There is one clue for each character but dots and zeros, in the cell at its place, and none else |
| Lines.LineAccepted | python/sudoku/parse.py:11-36 | A line is accepted if and only if it has 1, 16 or 81 characters, all of them dots or digits |
| Lines.LineClueExact | python/sudoku/parse.py:30-36 | A cell has a clue if and only if its character is a digit from 1 to 9, which is the value; dots and zeros give none |
| Lines.DigitExact | python/sudoku/parse.py:36 | A digit stands for its place in 0123456789 |
| Reparsing.AfterNext | python/sudoku/parse.py:30-36 | The characters take effect one after the other, in the order of the line |
| Lines.ParseConsistent | python/sudoku/parse.py:3-38 | A parsed grid is peer consistent, and in range if and only if the digits of the line are |
| Lines.ParseLosesAndInventsNothing | python/sudoku/parse.py:3-38 | A filled-in sudoku completes the parsed grid if and only if it agrees with the line |
| Lines.FullSizeLinesInRange | python/sudoku/parse.py:30-36 | Lines of 81 characters cannot hold a digit out of range |
| Lines.SearchSolvesLine | python/sudoku/solutions.py:3-43 | The search from a parsed line reports exactly the filled-in sudokus that agree with the line, each once |
| Lines.OutOfRangeLineIsNeverSolved | python/sudoku/parse.py:30-36 | A line with a digit out of range has no solution, and no grid reported for it is a sudoku |
| Lines.ReportIsSudokuIff | python/sudoku/grid.py:61-68 | A grid reported for a line is a sudoku if and only if every digit of the line is in range |
| Lines.CompleteIsSudokuIff | python/sudoku/grid.py:61-68 | A parsed grid that is complete is a sudoku if and only if every digit of the line is in range |
| Lines.CompleteButNoSudoku | python/sudoku/grid.py:61-68 | A line of one character 2 to 9 gives a grid that is complete and no sudoku |
| Lines.CellTextsExact | python/sudoku/grid.py:233-236 | With one-digit values the state line has one character per cell, a digit for decided cells and a dot for others |
| Lines.StateLineExact | python/sudoku/grid.py:222-236 | The character for a cell is the digit that is its only candidate and a dot otherwise; only dimensions up to 3 have a state line |
| Lines.DecimalExact | python/sudoku/grid.py:236 | A value is printed in decimal digits that stand for it, without leading zeros |
| Lines.StateLineClues | python/sudoku/grid.py:222-236 | The clues of a state line are exactly the decided cells with their values |
| Lines.StateLineNormalForm | python/sudoku/grid.py:222-236 | Parsing the state line of a possible parsed grid gives back all of its candidates |
| Reparsing.ParsedIsReprinted | python/sudoku/grid.py:222-236 | Every possible parsed grid has a state line that shows its decided cells, to which the results below apply |
| Reparsing.AgainBelow | python/sudoku/grid.py:222-236 | The grid parsed from the state line has no candidate that the printed grid had not |
| Reparsing.UndecidedKept | python/sudoku/grid.py:222-236 | If no value is lost, the undecided cells keep their candidates throughout the second parse |
| Reparsing.LostValueShowsAgain | python/sudoku/grid.py:222-236 | A lost value tells the second grid from the first |
| Reparsing.StateLineNormalFormIff | python/sudoku/grid.py:222-236 | The exact condition for the state line of a grid parsed from any line to give the grid back |
| Lines.SudokuRoundTrip | python/sudoku/grid.py:222-236 | Printing a filled-in sudoku and parsing the line gives back the grid, so printing again gives the same line |
| Overwriting.OrderMatters | python/sudoku/grid.py:39-51 | For four clues of which one is out of range the condition fails, so that their order matters |
| Overwriting.StateLineLosesOrder | python/sudoku/grid.py:222-236 | For the line 12.9......4..... the condition fails, so that the state line is parsed as another grid |
| Squares.Square.constructor | python/sudoku/square.py:18-24 | A new square may take the values 1 to the maximum |
| Squares.Square.Copy | python/sudoku/square.py:12-14 | A copied square has the same possibilities |
| Squares.Square.RemovePossibility | python/sudoku/square.py:27-39 | Removes the value and says whether it was there |
| Squares.Square.GetValue | python/sudoku/square.py:49-59 | Gives a value exactly when it is the only possibility |
| Squares.Square.SetValue | python/sudoku/square.py:62-66 | Leaves the value as the only possibility, whether or not it was one before |
| Squares.Square.GetPossibilities | python/sudoku/square.py:69-72 | The possibilities in ascending order, each once |
| Grids.Grid.constructor | python/sudoku/grid.py:22-36 | A new grid has all values in every cell, in squares of its own |
| Grids.Grid.Copy | python/sudoku/grid.py:14-21 | A copy has the same candidates in squares it shares with no grid |
| Grids.Grid.SetSquareValue | python/sudoku/grid.py:39-51 | Refuses indexes outside the grid and changes nothing then; else places the value with its cascade and keeps consistency |
| Grids.Grid.RemoveRelatedPossibilities | python/sudoku/grid.py:239-262 | The three loops with their recursion end and leave the grid of the function whose meaning is proved above |
| Grids.Grid.RemovePossibility | python/sudoku/grid.py:265-278 | The same for a single removal, which goes on only after a real removal that decides the cell |
| Grids.Grid.GetSquaresInSector | python/sudoku/grid.py:281-297 | The other cells of the sector, each once |
| Grids.Grid.IsPossible | python/sudoku/grid.py:54-59 | Every cell has a candidate |
| Grids.Grid.IsComplete | python/sudoku/grid.py:61-68 | Every cell has exactly one candidate |
| Grids.Grid.MustBeValue | python/sudoku/grid.py:121-154 | Says no if and only if another cell of the row, another one of the column and another one of the sector have the value |
| Grids.Grid.RowTestMeaning | python/sudoku/grid.py:130-136 | The row test says that no other cell of the row has the value |
| Grids.Grid.ColTestMeaning | python/sudoku/grid.py:139-145 | The column test says that no other cell of the column has the value |
| Grids.Grid.SectorTestMeaning | python/sudoku/grid.py:148-154 | The sector test says that no other cell of the sector has the value |
| Grids.Grid.DeduceSquare | python/sudoku/grid.py:108-128 | Finds the least candidate missing from the rest of the row, column or sector, or says that each is in another cell of all three |
| Grids.Grid.Refine | python/sudoku/grid.py:71-105 | The loop with the moving stop marker ends and leaves the refined grid, consistent if it was |
| Grids.Grid.SplitCandidates | python/sudoku/grid.py:169-172 | Lists the cells with two or more possibilities in row-major order |
| Grids.Grid.FewestPossibilities | python/sudoku/grid.py:179 | Takes the first of the cells with the fewest possibilities |
| Grids.Grid.CopiesWithValues | python/sudoku/grid.py:181-190 | One new grid per possibility; this grid is unchanged and none of the new grids share a square |
| Grids.Grid.Split | python/sudoku/grid.py:157-190 | Gives the parts of the split in fresh squares, and fails exactly when no cell has two possibilities |
| Grids.Grid.SeparateElements | python/sudoku/grid.py:181-190 | The grids of a split are valid, show the parts in order, and pairwise share no square |
| Grids.Grid.GetStateLine | python/sudoku/grid.py:222-236 | Builds the state line, and refuses exactly the dimensions above 3 |
| Solutions.SortSplits | python/sudoku/solutions.py:29-37 | The parts are sorted into complete ones, yielded with the count, and possible ones, stacked in order |
| Solutions.SplitAndSort | python/sudoku/solutions.py:25-37 | Splits the grid, adds the number of candidates of the split cell to the count, and sorts the parts |
| Solutions.Inspect | python/sudoku/solutions.py:19-37 | Yields a complete grid, splits a possible one, which adds the candidates of the split cell to the count, and drops any other |
| Solutions.Turn | python/sudoku/solutions.py:17-37 | A turn of the loop up to the pop does to grids that share no squares what a step of the search does to boards |
| Solutions.SolutionGenerator.constructor | python/sudoku/solutions.py:3-13 | A generator owns at most the squares of its start grid, and is to report what the search reports |
| Solutions.SolutionGenerator.Advance | python/sudoku/solutions.py:15-43 | One turn of the loop leaves what is still to be reported as it is and comes closer to the end |
| Solutions.SolutionGenerator.Next | python/sudoku/solutions.py:15-43 | Hands out exactly the next report, and from then on depends on no square of that grid; ends when no report is left |
| Solutions.Generate | python/sudoku/solutions.py:3-43 | Asking until the end gives grids and counts exactly as a run of the state machine reports them |
| Solutions.YieldedElements | python/sudoku/solutions.py:19-33 | The yielded grids are valid, show the reports in order, and pairwise share no square |
| Solutions.YieldedExact | python/sudoku/solutions.py:3-43 | An assignment is shown by a yielded grid only if it completes the start grid, if that is in range also if it does, by no two of them, within the split bound |
| Solutions.YieldedSolveLine | python/sudoku/solutions.py:3-43 | From a parsed line in range, the yielded grids are exactly the sudokus that agree with the line, each once |
| Parsing.PlaceCharacter | python/sudoku/parse.py:34-36 | Skips a dot or zero, places a digit, and fails on exactly the other characters |
| Parsing.ParseLine | python/sudoku/parse.py:3-38 | Accepts exactly the lines of 1, 16 or 81 dots and digits, and builds their grids, consistent and in squares of their own |
| Solving.AllSolutions | puzzles/sudoku17/solve.py:33-35 | Accepts exactly the lines of 1, 16 or 81 dots and digits; for those in range the solutions are the sudokus that agree with the line, each once |
| Solving.FirstSolution | puzzles/sudoku17/solve.py:33-52 | The first solution of a line in range is a sudoku that agrees with it, and if there is none, no sudoku does |
| Bytes.CStringUnique | cpp/libraries/sqlite/src/shell.c:1950-1953 | The C string of a buffer ends at its first NUL |
| Separators.FirstExact | cpp/libraries/sqlite/src/shell.c:2276-2277 | The position found is the first at which the separator stands |
| Separators.SplitJoinIff | cpp/libraries/sqlite/src/shell.c:2276-2285 | Splitting a joined row gives back the fields if and only if each field's separator is the first one after its start |
| Separators.OneByteSeparator | cpp/libraries/sqlite/src/shell.c:2277 | For a separator of one byte that means that the fields do not contain it |
| Separators.OneByteSplitJoin | cpp/libraries/sqlite/src/shell.c:2276-2285 | With a separator of one byte that no field contains, splitting undoes joining |
| Quoting.DoubledSize | cpp/libraries/sqlite/src/shell.c:1615-1621 | The doubled text is longer by the number of quotes in it |
| Quoting.DoubledConcat | cpp/libraries/sqlite/src/shell.c:1258-1270 | Doubling chunk by chunk doubles the whole |
| Quoting.ReadQuotedInverts | cpp/libraries/sqlite/src/shell.c:1248-1273 | Reading two quotes as one gives back the quoted text and what follows it |
| Quoting.ReadQuotedGoesOn | cpp/libraries/sqlite/src/shell.c:1370-1375 | A quotation followed by another quote is read on beyond its text |
| Quoting.NeedsQuotesExact | cpp/libraries/sqlite/src/shell.c:1578-1584 | Quoted are the empty name, names that start with a digit, and names with a byte that is no letter, digit or underscore |
| Quoting.TableNameReads | cpp/libraries/sqlite/src/shell.c:1578-1598 | A table name reads back, whether or not it needed quotes |
| Csv.MustQuoteExact | cpp/libraries/sqlite/src/shell.c:1329-1368 | Quoted are the empty field, fields with a control, a space, a quote, DEL or a byte outside ASCII, and fields that hold a separator of one byte or start with a longer one |
| Csv.FieldExact | cpp/libraries/sqlite/src/shell.c:1361-1378 | Such a field is printed between double quotes with those inside it doubled, any other one as it is |
| Csv.ReadRowIff | cpp/libraries/sqlite/src/shell.c:1354-1383 | For any separator, reading a printed row by the rules of section 2 of RFC 4180 gives back the fields if and only if the row is readable |
| Csv.OneByteRowRoundTrip | cpp/libraries/sqlite/src/shell.c:1354-1383 | With a separator of one byte every row reads back, empty fields included, if and only if that is not the double quote or no field but the last is quoted |
| Csv.LongSeparatorExample | cpp/libraries/sqlite/src/shell.c:1362-1364 | A field with a separator of two bytes inside it is printed bare and does not read back |
| Csv.TableRoundTrip | cpp/libraries/sqlite/src/shell.c:1536-1539 | Rows one after the other read back, although fields may contain line feeds |
| Escapes.EscapeByteExact | cpp/libraries/sqlite/src/shell.c:1281-1299 | What is written for each byte: itself if printable, or the escape for a backslash, tab, line feed or return, or three octal digits |
| Escapes.DecodeOctalExact | cpp/libraries/sqlite/src/shell.c:1962-1971 | A backslash with one to three octal digits, and no further one if fewer than three, stands for their value modulo 256 |
| Escapes.DecodeOtherExact | cpp/libraries/sqlite/src/shell.c:1953-1961 | The letters n, t and r stand for their controls, any other byte behind a backslash for itself |
| Escapes.UnescapeOctal | cpp/libraries/sqlite/src/shell.c:1953-1975 | The decoded text has that byte for an octal escape and goes on behind its digits |
| Escapes.UnescapeOther | cpp/libraries/sqlite/src/shell.c:1953-1975 | The decoded text has the byte of any other escape, or the byte that is no backslash, and goes on behind it |
| Escapes.WellEscapedIff | cpp/libraries/sqlite/src/shell.c:1953-1955 | An escape is cut off exactly if the text ends in an odd number of backslashes |
| Escapes.DecodeEscapedByte | cpp/libraries/sqlite/src/shell.c:1282-1298 | An escape decodes to its byte with nothing of what follows, so that three octal digits are never extended |
| Escapes.EscapeRoundTrip | cpp/libraries/sqlite/src/shell.c:1278-1301 | Decoding the escaped text gives back the text |
| Escapes.EscapePrintable | cpp/libraries/sqlite/src/shell.c:1294-1298 | Escaped text is printable ASCII |
| Escapes.EscapedBufferDecodes | cpp/libraries/sqlite/src/shell.c:1950-1977 | A buffer that holds an escaped text decodes to the text, whatever stands behind it |
| Escapes.DecodeAt | cpp/libraries/sqlite/src/shell.c:1953-1973 | Reads one byte or escape; octal digits are read to their value modulo 256 |
| Escapes.ResolveBackslashes | cpp/libraries/sqlite/src/shell.c:1950-1977 | The buffer holds the decoded C string and a NUL, and is unchanged behind them |
| Escapes.DecodeLoop | cpp/libraries/sqlite/src/shell.c:1953-1975 | The write index never passes the read index, so what is still to be read is never overwritten |
| Import.ContentExact | cpp/libraries/sqlite/src/shell.c:2276 | A line ends at its first NUL, line feed or carriage return |
| Import.ColumnIsCString | cpp/libraries/sqlite/src/shell.c:2275-2286 | A column is the C string at its offset |
| Import.ListRowImportIff | cpp/libraries/sqlite/src/shell.c:2275-2286 | A line of joined fields, up to its end, splits into the fields if and only if they are separable |
| Import.SeparatorAt | cpp/libraries/sqlite/src/shell.c:2277 | Compares the bytes at hand with the separator, without reading past the end of the line |
| Import.FoundIsExact | cpp/libraries/sqlite/src/shell.c:2276-2287 | The number of columns counted is right up to the expected number, and beyond that too large as well |
| Import.FoundBeyond | cpp/libraries/sqlite/src/shell.c:2276-2290 | With too many columns, every place behind the last separator acted upon at which a separator starts is counted |
| Import.OneByteFound | cpp/libraries/sqlite/src/shell.c:2276-2290 | With a separator of one byte the number of columns reported is always right |
| Import.SplitLine | cpp/libraries/sqlite/src/shell.c:2275-2293 | Accepts the line if and only if it has the expected number of columns, leaves each as a C string in the buffer, and reports the number found |
| Substitution.FirstMatchExact | cpp/libraries/sqlite/src/shell.c:615-624 | The rule found is the first in the list whose search string stands here |
| Substitution.CopiesUpToMatch | cpp/libraries/sqlite/src/shell.c:610-640 | Text before the first place where a search string occurs is copied |
| Substitution.LeftmostFirstListed | cpp/libraries/sqlite/src/shell.c:610-640 | At the leftmost match the first listed rule is applied, and substitution goes on behind the match |
| Substitution.NoMatchNoChange | cpp/libraries/sqlite/src/shell.c:610-640 | Text in which no search string occurs is unchanged |
| Substitution.EndsIff | cpp/libraries/sqlite/src/shell.c:610-640 | The loop comes to the end of the input if and only if no rule with an empty search string is the first to match where it stands |
| Substitution.NonEmptyEnds | cpp/libraries/sqlite/src/shell.c:610-640 | With search strings that are not empty it always does |
| Substitution.SameBytes | cpp/libraries/sqlite/src/shell.c:618 | The comparison of search string and input finds exactly whether the bytes agree |
| Substitution.FindRule | cpp/libraries/sqlite/src/shell.c:611-624 | Going through the pairs of arguments finds what to copy and how much input it stands for |
| Substitution.Append | cpp/libraries/sqlite/src/shell.c:625-639 | The buffer is enlarged when needed, always has room for the copy, and keeps what was written |
| Substitution.MultiReplace | cpp/libraries/sqlite/src/shell.c:598-644 | For all inputs for which the loop ends, the output is the substitution of the input |
| Printers.CsvRowText | cpp/libraries/sqlite/src/shell.c:1536-1539 | A row without NULL is printed as the row whose reading is proved above |
| Printers.RowTextExact | cpp/libraries/sqlite/src/shell.c:1480-1539 | Value by value what is printed for a row: NULL by its own text, the separator between values, and the line end of the mode |
| Printers.HeaderTextExact | cpp/libraries/sqlite/src/shell.c:1474-1534 | Name by name what is printed as the header line |
| Printers.AppendedExact | cpp/libraries/sqlite/src/shell.c:1628-1641 | Without a quote the text is appended as it is, otherwise between quotes with those inside it doubled |
| Printers.PrintedCsvRowReads | cpp/libraries/sqlite/src/shell.c:1528-1541 | A row printed in CSV mode with a separator of one byte reads back |
| Printers.PrintedCsvTableReads | cpp/libraries/sqlite/src/shell.c:1528-1541 | A table printed row by row in CSV mode with a separator of one byte reads back |
| Printers.PrintedListRowImportIff | cpp/libraries/sqlite/src/shell.c:1480-1491 | A row printed in list mode imports as its fields if and only if they are separable |
| Printers.PrintedListRowImports | cpp/libraries/sqlite/src/shell.c:1480-1491 | A row printed in list mode with a separator of one byte that no field contains imports as its fields |
| Printers.CallbackData.OutputCString | cpp/libraries/sqlite/src/shell.c:1278-1301 | Prints the escaped text between double quotes |
| Printers.CallbackData.PrintChunk | cpp/libraries/sqlite/src/shell.c:1259-1269 | Prints one chunk, up to and with the next quote, as the naive doubling of that chunk |
| Printers.CallbackData.OutputQuotedString | cpp/libraries/sqlite/src/shell.c:1248-1273 | Chunk by chunk, prints the text with its quotes doubled between single quotes |
| Printers.CallbackData.NeedsCsvQuotes | cpp/libraries/sqlite/src/shell.c:1361-1368 | Finds exactly the fields that are empty, hold a byte that has to be quoted, or hold the separator as far as the source looks for it |
| Printers.CallbackData.OutputCsv | cpp/libraries/sqlite/src/shell.c:1354-1383 | Prints exactly these fields between double quotes, others as they are, and the text for NULL bare, and the separator if asked for |
| Printers.CallbackData.CsvRow | cpp/libraries/sqlite/src/shell.c:1528-1541 | Prints the fields with separators between them and a line feed |
| Printers.CallbackData.ListRow | cpp/libraries/sqlite/src/shell.c:1480-1491 | Prints the values with separators between them and the line end behind the last |
| Printers.CallbackData.HeaderRow | cpp/libraries/sqlite/src/shell.c:1474-1478 | Prints the names of the columns in the form of a row, in semicolon mode with a line feed only |
| Printers.CallbackData.Callback | cpp/libraries/sqlite/src/shell.c:1400-1541 | Prints the names before the first row if they are to be shown, and the values, if there are any, in the form its mode asks for |
| Printers.CallbackData.MeasureAppended | cpp/libraries/sqlite/src/shell.c:1612-1621 | The first pass counts exactly the bytes the second writes |
| Printers.CallbackData.FillDoubled | cpp/libraries/sqlite/src/shell.c:1631-1634 | Writes the doubled text within the counted size |
| Printers.CallbackData.FillAppended | cpp/libraries/sqlite/src/shell.c:1628-1641 | Writes the appended text, quoted if a quote is given, within the counted size |
| Printers.CallbackData.AppendText | cpp/libraries/sqlite/src/shell.c:1609-1644 | The result is the old text with the appended one behind it and a NUL, and fills its buffer exactly |
| Printers.CallbackData.MeasureName | cpp/libraries/sqlite/src/shell.c:1578-1584 | Finds whether a name needs quotes and how long it is with its quotes doubled |
| Printers.CallbackData.SetTableName | cpp/libraries/sqlite/src/shell.c:1568-1599 | The stored name is quoted if it is no identifier, ends in a NUL, and fills its buffer exactly |

## Left out

- Squares.Square.SetValue: values start at 1; the truth value of a candidate 0, which no parsed line produces, is not modelled.
- Grids.Grid.SetSquareValue: an index outside the grid is reported by a result of false instead of a ValueError.
- Grids.Grid.Split: the RuntimeError is modelled as a result without grids; each copy is made and set before the next one is made.
- Grids.Grid.GetStateLine: the RuntimeError for dimensions above 3 is modelled as a result without a line.
- Grids.Grid.constructor: takes dimensions from 1 on; the ValueError for smaller ones is a precondition.
- Parsing.ParseLine: both kinds of ValueError are one result without a grid; digits outside ASCII, which Python's `int` accepts, count as unreadable; the floating-point fourth root is modelled by the lengths 1, 16 and 81 it accepts.
- Solutions.SolutionGenerator.Next: the first test whether the start grid is possible is made when the generator is created, and the solutions of one turn of the loop are found together before the first of them is handed out.
- Clues.PlacementOrderIrrelevant: stated for clues that are candidates of the grid they are placed in; `Orders.OrderFreeIff` covers clues out of range on a new grid.
- Orders.OrderFreeIff: open for clues whose part in range is impossible on its own while some order of all of them is possible.
- Lines.StateLineNormalForm: stated for lines whose digits are in range; `Reparsing.StateLineNormalFormIff` covers the others.
- Reparsing.StateLineNormalFormIff: open for grids whose decided cells in range are impossible without those out of range.
- Enumeration.SearchExact: that every completion is reported is stated for start grids in range; from others a deduction can pick a candidate out of range. For lines with such a digit `Lines.OutOfRangeLineIsNeverSolved` and `Lines.ReportIsSudokuIff` say what holds.
- Escapes.ResolveBackslashes: requires that no escape is cut off by the end of the string; a lone trailing backslash makes the source read behind it.
- Import.SplitLine: separators that contain a carriage return or line feed are not modelled.
- Substitution.MultiReplace: search strings are free of NUL, at which the comparison of the source stops.
- Csv.OneByteRowRoundTrip: rows without NULL columns, which are printed bare and can not be told from text, and with at least one column.
- Csv.TableRoundTrip: separators of one byte other than the double quote and the line feed.
- Printers.CallbackData.Callback: only the list, semicolon and CSV modes; names of columns that are NULL are not modelled.
- Printers.CallbackData.OutputCsv: a separator longer than the field is compared as different, where `memcmp` may read behind the field.
- Printers.CallbackData.SetTableName: letters and digits are those of ASCII, as printable bytes are for `output_c_string`; the locale is not modelled.
- Allocation failure, the width of C integers, and the freeing of buffers.
- `getGridString`, which only lays out the grid for display, and `psyco` and recursion limits.
- The reading of files, the timing and the output of `puzzles/sudoku17/solve.py`, the F# console program and the C++ workspace, which is input, output and code in headers that are not in the repository.
- The rest of `shell.c`: database calls, the other commands and output modes.
