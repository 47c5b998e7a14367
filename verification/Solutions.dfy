/** The search for solutions over mutable grids. */
module Solutions {
  import opened Geometry
  import opened Candidates
  import opened Options
  import Deduction
  import opened Enumeration
  import opened Grids
  import opened Propagation
  import Lines
  import opened Search
  import opened Squares

  /** What the search yields: a grid and the number of splits performed so far. */
  type Solution = (Grid, nat)

  /** The yielded grids show the reported boards with the reported counts, and share no squares. */
  ghost predicate Yielded(n: Dimension, solutions: seq<Solution>, reports: seq<Report>, all: set<Square>)
    reads all
    decreases |solutions|
  {
    && |solutions| == |reports|
    && (|solutions| > 0 ==>
          var k := |solutions| - 1;
          var grid := solutions[k].0;
          && grid.Valid() && grid.squares <= all && grid.sectorDimension == n
          && grid.View() == reports[k].grid && solutions[k].1 == reports[k].splits
          && Yielded(n, solutions[..k], reports[..k], all - grid.squares))
  }

  lemma {:induction false} YieldedElements(n: Dimension, solutions: seq<Solution>, reports: seq<Report>, all: set<Square>)
    requires Yielded(n, solutions, reports, all)
    ensures |solutions| == |reports|
    ensures forall i :: 0 <= i < |solutions| ==>
      && solutions[i].0.Valid() && solutions[i].0.squares <= all && solutions[i].0.sectorDimension == n
      && solutions[i].0.View() == reports[i].grid && solutions[i].1 == reports[i].splits
    ensures forall i, j :: 0 <= i < j < |solutions| ==> solutions[i].0.squares !! solutions[j].0.squares
    decreases |solutions|
  {
    hide Grid.Valid, Grid.View;
    if solutions != [] {
      var k := |solutions| - 1;
      YieldedElements(n, solutions[..k], reports[..k], all - solutions[k].0.squares);
      forall i | 0 <= i < k
        ensures solutions[i].0.squares <= all - solutions[k].0.squares
      {
        assert solutions[..k][i] == solutions[i];
      }
    }
  }

  lemma YieldedAppend(n: Dimension, solutions: seq<Solution>, reports: seq<Report>, all: set<Square>,
                      grid: Grid, splits: nat)
    requires Yielded(n, solutions, reports, all)
    requires grid.Valid() && grid.sectorDimension == n && grid.squares !! all
    ensures Yielded(n, solutions + [(grid, splits)], reports + [Report(grid.View(), splits)], all + grid.squares)
  {
    assert (solutions + [(grid, splits)])[..|solutions|] == solutions;
    assert (reports + [Report(grid.View(), splits)])[..|reports|] == reports;
    assert all + grid.squares - grid.squares == all;
  }

  lemma YieldedOne(n: Dimension, grid: Grid, splits: nat)
    requires grid.Valid() && grid.sectorDimension == n
    ensures Yielded(n, [(grid, splits)], [Report(grid.View(), splits)], grid.squares)
  {
  }

  lemma {:induction false} YieldedWiden(n: Dimension, solutions: seq<Solution>, reports: seq<Report>,
                                        all: set<Square>, more: set<Square>)
    requires Yielded(n, solutions, reports, all) && all <= more
    ensures Yielded(n, solutions, reports, more)
    decreases |solutions|
  {
    if solutions != [] {
      var k := |solutions| - 1;
      YieldedWiden(n, solutions[..k], reports[..k], all - solutions[k].0.squares, more - solutions[k].0.squares);
    }
  }

  lemma {:induction false} YieldedConcat(n: Dimension, xs: seq<Solution>, rs: seq<Report>, all: set<Square>,
                                         ys: seq<Solution>, others: seq<Report>, rest: set<Square>)
    requires Yielded(n, xs, rs, all) && Yielded(n, ys, others, rest) && all !! rest
    ensures Yielded(n, xs + ys, rs + others, all + rest)
    decreases |ys|
  {
    hide Grid.Valid, Grid.View;
    if ys == [] {
      assert xs + ys == xs && rs + others == rs;
      YieldedWiden(n, xs, rs, all, all + rest);
    } else {
      var k, squares := |ys| - 1, ys[|ys| - 1].0.squares;
      YieldedConcat(n, xs, rs, all, ys[..k], others[..k], rest - squares);
      assert (xs + ys)[..|xs| + k] == xs + ys[..k];
      assert (rs + others)[..|rs| + k] == rs + others[..k];
      assert all + (rest - squares) == all + rest - squares;
    }
  }

  /** None of the grids from number i on has a square in the given set. */
  ghost predicate Apart(grids: seq<Grid>, i: nat, used: set<Square>) {
    forall k :: i <= k < |grids| ==> grids[k].squares !! used
  }

  lemma ApartNext(grids: seq<Grid>, i: nat, used: set<Square>)
    requires i < |grids| && Apart(grids, i, used)
    requires forall k :: i < k < |grids| ==> grids[i].squares !! grids[k].squares
    ensures grids[i].squares !! used
    ensures Apart(grids, i + 1, used) && Apart(grids, i + 1, used + grids[i].squares)
  {
  }

  /** Sorts the grids of a split into those that are complete, to be yielded, and those worth inspecting. */
  method SortSplits(ghost n: Dimension, gridSplits: seq<Grid>, splits: nat,
                    ghost boards: seq<Board>, ghost all: set<Square>, ghost total: nat)
    returns (open: seq<Grid>, finished: seq<Solution>, ghost opens: set<Square>, ghost ends: set<Square>)
    requires Grid.SeparateGrids(n, gridSplits, boards, all) && splits == total
    ensures Grid.SeparateGrids(n, open, Open(boards), opens)
    ensures Yielded(n, finished, Finished(boards, total), ends)
    ensures opens !! ends && opens <= all && ends <= all
  {
    hide Grid.Valid, Grid.View, Possible, Complete;
    open, finished, opens, ends := [], [], {}, {};
    ghost var stacked: seq<Board>, reports: seq<Report> := [], [];
    Grid.SeparateElements(n, gridSplits, boards, all);
    for i := 0 to |gridSplits|
      invariant forall k :: 0 <= k < |gridSplits| ==> gridSplits[k].View() == boards[k]
      invariant stacked == Open(boards[..i]) && Grid.SeparateGrids(n, open, stacked, opens)
      invariant reports == Finished(boards[..i], total) && Yielded(n, finished, reports, ends)
      invariant opens !! ends && opens <= all && ends <= all
      invariant Apart(gridSplits, i, opens) && Apart(gridSplits, i, ends)
    {
      var grid := gridSplits[i];
      ApartNext(gridSplits, i, opens);
      ApartNext(gridSplits, i, ends);
      OpenStep(boards, i);
      FinishedStep(boards, i, total);
      if grid.IsComplete() {
        YieldedAppend(n, finished, reports, ends, grid, splits);
        finished, reports, ends := finished + [(grid, splits)], reports + [Report(boards[i], total)], ends + grid.squares;
      } else if grid.IsPossible() {
        Grid.SeparateAppend(n, open, stacked, opens, grid);
        open, stacked, opens := open + [grid], stacked + [boards[i]], opens + grid.squares;
      }
    }
    assert boards[..|gridSplits|] == boards;
  }

  /** The count goes up by the number of candidates of the cell to be split. */
  ghost predicate CountedUp(g: Board, before: nat, after: nat) {
    forall c :: IsSplitCell(g, c) ==> after == before + |g[c]|
  }

  lemma CountPossibilities(n: Dimension, g: Board, splits: nat)
    requires WellFormed(n, g) && Splittable(g)
    ensures CountedUp(g, splits, splits + |Split(n, g)|)
  {
    forall c | IsSplitCell(g, c)
      ensures |Split(n, g)| == |g[c]|
    {
      SplitCellUnique(n, g, c);
    }
  }

  method SplitAndSort(currentGrid: Grid, splitsPerformed: nat, ghost others: set<Square>)
    returns (open: seq<Grid>, finished: seq<Solution>, splits: nat, ghost opens: set<Square>, ghost ends: set<Square>)
    requires currentGrid.Valid() && Splittable(currentGrid.View())
    ensures var n, g := currentGrid.sectorDimension, old(currentGrid.View());
            var e := Sorted(Split(n, g), Advance(splitsPerformed, Split(n, g)));
            Grid.SeparateGrids(n, open, e.frames, opens) && Yielded(n, finished, e.reports, ends) && splits == e.splits
    ensures opens !! ends && opens !! others && ends !! others && fresh(opens) && fresh(ends)
    ensures CountedUp(old(currentGrid.View()), splitsPerformed, splits)
  {
    ghost var n, g := currentGrid.sectorDimension, currentGrid.View();
    ghost var parts := Split(n, g);
    var gridSplits, made := currentGrid.Split();
    assert made !! others;
    splits := splitsPerformed + |gridSplits.value|;
    CountPossibilities(n, g, splitsPerformed);
    open, finished, opens, ends :=
      SortSplits(n, gridSplits.value, splits, parts, made, Advance(splitsPerformed, parts));
  }

  /** Yields a refined grid if it is complete, and otherwise splits it if it is possible. */
  method Inspect(currentGrid: Grid, splitsPerformed: nat, ghost others: set<Square>)
    returns (open: seq<Grid>, finished: seq<Solution>, splits: nat, ghost opens: set<Square>, ghost ends: set<Square>)
    requires currentGrid.Valid() && currentGrid.squares !! others
    ensures var n := currentGrid.sectorDimension;
            var e := Expand(n, old(currentGrid.View()), splitsPerformed);
            Grid.SeparateGrids(n, open, e.frames, opens) && Yielded(n, finished, e.reports, ends) && splits == e.splits
    ensures opens !! ends && opens !! others && ends !! others
    ensures fresh(opens) && fresh(ends - currentGrid.squares)
    ensures var g := old(currentGrid.View());
            if Possible(g) && !Complete(g) then CountedUp(g, splitsPerformed, splits) else splits == splitsPerformed
  {
    ghost var n := currentGrid.sectorDimension;
    ghost var g := currentGrid.View();
    splits := splitsPerformed;
    if currentGrid.IsComplete() {
      ExpandComplete(n, g, splits);
      YieldedOne(n, currentGrid, splits);
      open, finished, opens, ends := [], [(currentGrid, splits)], {}, currentGrid.squares;
    } else if currentGrid.IsPossible() {
      ExpandPossible(n, g, splits);
      open, finished, splits, opens, ends := SplitAndSort(currentGrid, splits, others);
    } else {
      ExpandImpossible(n, g, splits);
      open, finished, opens, ends := [], [], {}, {};
    }
  }

  /** One turn of the search loop up to the pop is one step of the state machine. */
  method Turn(currentGrid: Grid, stack: seq<Grid>, splitsPerformed: nat,
              ghost n: Dimension, ghost rest: seq<Board>, ghost owned: set<Square>)
    returns (inspectionStack: seq<Grid>, finished: seq<Solution>, splits: nat,
             ghost owned': set<Square>, ghost ends: set<Square>)
    requires currentGrid.Valid() && currentGrid.sectorDimension == n && currentGrid.squares <= owned
    requires Grid.SeparateGrids(n, stack, rest, owned - currentGrid.squares)
    modifies currentGrid.squares
    ensures var e := Expand(n, Deduction.Refine(n, old(currentGrid.View())), splitsPerformed);
            && Grid.SeparateGrids(n, inspectionStack, rest + e.frames, owned')
            && Yielded(n, finished, e.reports, ends)
            && splits == e.splits
    ensures owned' !! ends && fresh(owned' - owned) && fresh(ends - owned)
    ensures var g := Deduction.Refine(n, old(currentGrid.View()));
            if Possible(g) && !Complete(g) then CountedUp(g, splitsPerformed, splits) else splits == splitsPerformed
  {
    hide *;
    ghost var kept := owned - currentGrid.squares;
    ghost var refined := Deduction.Refine(n, currentGrid.View());
    ghost var e := Expand(n, refined, splitsPerformed);
    currentGrid.Refine();
    var open;
    ghost var opens;
    open, finished, splits, opens, ends := Inspect(currentGrid, splitsPerformed, kept);
    Grid.SeparateConcat(n, stack, rest, kept, open, e.frames, opens);
    inspectionStack, owned' := stack + open, kept + opens;
  }

  // ----- what the yielded grids show

  /** The grid yielded at an index shows the assignment. */
  ghost predicate YieldShows(solutions: seq<Solution>, i: int, s: Assignment)
    reads if 0 <= i < |solutions| then solutions[i].0.squares else {}
  {
    0 <= i < |solutions| && solutions[i].0.Valid() && solutions[i].0.View() == Shown(s)
  }

  /**
   Whatever the search yields from a consistent grid: an assignment is shown by a yielded grid only if it completes the
   start grid, and if that is in range also if it does, never by two of them, and no split count exceeds the bound.
   */
  lemma YieldedExact(n: Dimension, g: Board, solutions: seq<Solution>, all: set<Square>, s: Assignment)
    requires WellFormed(n, g) && PeerConsistent(n, g)
    requires Yielded(n, solutions, Reports(n, g), all)
    ensures (exists i :: YieldShows(solutions, i, s)) ==> Completes(n, s, g)
    ensures InRange(n, g) && Completes(n, s, g) ==> exists i :: YieldShows(solutions, i, s)
    ensures forall i, j :: YieldShows(solutions, i, s) && YieldShows(solutions, j, s) ==> i == j
    ensures forall i :: 0 <= i < |solutions| ==> solutions[i].1 <= 2 * Choices(n, g) - 2
  {
    YieldsShowReports(n, solutions, Reports(n, g), all, s);
    SearchExact(n, g, s);
    SearchSplitBound(n, g);
  }

  lemma YieldsShowReports(n: Dimension, solutions: seq<Solution>, reports: seq<Report>, all: set<Square>, s: Assignment)
    requires Yielded(n, solutions, reports, all)
    ensures |solutions| == |reports| && forall i :: 0 <= i < |solutions| ==> solutions[i].1 == reports[i].splits
    ensures forall i :: YieldShows(solutions, i, s) <==> ShownAt(s, reports, i)
  {
    YieldedElements(n, solutions, reports, all);
  }

  /** What the search yields from the grid of a line in range are the sudokus that agree with the line, each once. */
  lemma YieldedSolveLine(line: string, solutions: seq<Solution>, all: set<Square>, s: Assignment)
    requires Lines.Parse(line).Parsed? && WellFormed(Lines.Parse(line).n, Lines.Parse(line).grid)
    requires Lines.LineInRange(Lines.Parse(line).n, line)
    requires Yielded(Lines.Parse(line).n, solutions, Reports(Lines.Parse(line).n, Lines.Parse(line).grid), all)
    ensures |line| == Side(Lines.Parse(line).n) * Side(Lines.Parse(line).n)
    ensures (exists i :: YieldShows(solutions, i, s))
            <==> ValidSudoku(Lines.Parse(line).n, s) && Lines.AgreesWithLine(Lines.Parse(line).n, s, line)
    ensures forall i, j :: YieldShows(solutions, i, s) && YieldShows(solutions, j, s) ==> i == j
  {
    var n, g := Lines.Parse(line).n, Lines.Parse(line).grid;
    Lines.ParseConsistent(line);
    Lines.SearchSolvesLine(line, s);
    SearchExact(n, g, s);
    YieldedExact(n, g, solutions, all, s);
  }

  // ----- the search one solution at a time

  /** The grids on the stack show the open boards, and none of their squares is in a grid still to be handed out. */
  ghost predicate Holding(n: Dimension, stack: seq<Grid>, frames: seq<Board>, owned: set<Square>,
                          ready: seq<Solution>, waiting: seq<Report>, held: set<Square>)
    reads owned, held
  {
    Searchable(n, frames) && Grid.SeparateGrids(n, stack, frames, owned) && Yielded(n, ready, waiting, held) && owned !! held
  }

  /** One turn of the search loop, from the pop to the next one. */
  method TurnOnce(ghost n: Dimension, stack: seq<Grid>, splitsPerformed: nat, ghost frames: seq<Board>,
                  ghost owned: set<Square>, ghost ready: seq<Solution>, ghost waiting: seq<Report>, ghost held: set<Square>)
    returns (inspectionStack: seq<Grid>, finished: seq<Solution>, splits: nat,
             ghost frames': seq<Board>, ghost reports: seq<Report>, ghost owned': set<Square>, ghost ends: set<Square>)
    requires Holding(n, stack, frames, owned, ready, waiting, held) && stack != [] && ready == []
    modifies owned
    ensures Holding(n, inspectionStack, frames', owned', finished, reports, ends) && Searchable(n, frames')
    ensures Searchable(n, frames) && waiting == []
    ensures Run(n, State(frames, splitsPerformed, [])).reports == reports + Run(n, State(frames', splits, [])).reports
    ensures 0 <= Cost(n, frames', 1) < Cost(n, frames, 1)
    ensures fresh(owned' - owned) && fresh(ends - owned)
  {
    hide *;
    ghost var k, st := |stack| - 1, State(frames, splitsPerformed, []);
    var currentGrid, rest := stack[|stack| - 1], stack[..|stack| - 1];
    TopOfStack(n, stack, frames, owned, ready, waiting, held);
    TurnIsStep(n, frames[..k], frames[k], splitsPerformed);
    assert frames[..k] + [frames[k]] == frames;
    inspectionStack, finished, splits, owned', ends := Turn(currentGrid, rest, splitsPerformed, n, frames[..k], owned);
    ghost var t := Step(n, st);
    frames', reports := t.frames, t.reports;
    assert t == State(frames', splits, reports);
    HoldingAfter(n, inspectionStack, frames', owned', finished, reports, ends);
    RunReports(n, frames', splits, reports);
  }

  /**
   The generator with its local variables as fields. The grid to be inspected next is the top of the stack, and what a
   turn of the loop yields waits until it is asked for.
   */
  class SolutionGenerator {
    var inspectionStack: seq<Grid>
    var splitsPerformed: nat
    var ready: seq<Solution>
    ghost const n: Dimension
    ghost var frames: seq<Board>
    ghost var waiting: seq<Report>
    ghost var owned: set<Square>
    ghost var held: set<Square>

    /** Nothing here depends on the squares of a grid that has been handed out. */
    ghost predicate Valid()
      reads this, owned, held
    {
      Holding(n, inspectionStack, frames, owned, ready, waiting, held)
    }

    /** What is still to come. */
    ghost function Remaining(): seq<Report>
      requires Valid()
      reads this, owned, held
    {
      waiting + Run(n, State(frames, splitsPerformed, [])).reports
    }

    constructor (start: Grid)
      requires start.Valid()
      ensures Valid() && n == start.sectorDimension && Remaining() == Reports(n, start.View())
      ensures owned + held <= start.squares
    {
      hide Run, Grid.SeparateGrids, Yielded, Grid.View, Searchable;
      StartOfSearch(start);
      n := start.sectorDimension;
      splitsPerformed := 0;
      ready, waiting, held := [], [], {};
      if start.IsPossible() {
        inspectionStack, frames, owned := [start], [start.View()], start.squares;
      } else {
        inspectionStack, frames, owned := [], [], {};
      }
    }

    /** One turn of the search loop. */
    method Advance()
      requires Valid() && ready == [] && inspectionStack != []
      modifies this, owned
      ensures Valid() && Remaining() == old(Remaining())
      ensures 0 <= Cost(n, frames, 1) < old(Cost(n, frames, 1))
      ensures fresh(owned - old(owned)) && fresh(held - old(owned))
    {
      hide Holding, Run, Cost, Yielded, Grid.SeparateGrids, Searchable;
      inspectionStack, ready, splitsPerformed, frames, waiting, owned, held :=
        TurnOnce(n, inspectionStack, splitsPerformed, frames, owned, ready, waiting, held);
    }

    /** Turns until something is ready to be handed out or the stack is empty. */
    method Refill()
      requires Valid()
      modifies this, owned
      ensures Valid() && Remaining() == old(Remaining())
      ensures ready == [] ==> Remaining() == []
      ensures fresh(owned + held - old(owned) - old(held))
    {
      hide Run, Step, Cost, Expand, Grid.SeparateGrids, Yielded;
      ghost var goal := Remaining();
      while ready == [] && inspectionStack != []
        invariant Valid() && Remaining() == goal
        invariant fresh(owned - old(owned)) && fresh(held - old(owned) - old(held))
        decreases Cost(n, frames, 1)
      {
        Advance();
      }
      if ready == [] {
        NothingLeft(n, inspectionStack, frames, splitsPerformed, owned, ready, waiting, held);
      }
    }

    /** The next solution with the number of splits performed up to it, if there is another. */
    method Next() returns (solution: Option<Solution>, ghost squares: set<Square>)
      requires Valid()
      modifies this, owned
      ensures Valid() && fresh(owned + held + squares - old(owned) - old(held))
      ensures solution.None? ==> old(Remaining()) == [] && Remaining() == []
      ensures solution.Some? ==>
        && old(Remaining()) != [] && Remaining() == old(Remaining())[1..]
        && Yielded(n, [solution.value], [old(Remaining())[0]], squares)
        && squares !! owned && squares !! held
    {
      hide Run, Cost, Grid.SeparateGrids, Yielded, Searchable, Grid.Valid, Grid.View;
      Refill();
      squares := {};
      if ready == [] {
        solution := None;
      } else {
        solution := Some(ready[0]);
        YieldedLength(n, ready, waiting, held);
        YieldedFirst(n, ready, waiting, held);
        squares := ready[0].0.squares;
        ready, waiting, held := ready[1..], waiting[1..], held - squares;
      }
    }
  }

  lemma YieldedLength(n: Dimension, solutions: seq<Solution>, reports: seq<Report>, all: set<Square>)
    requires Yielded(n, solutions, reports, all)
    ensures |solutions| == |reports|
  {
  }

  lemma {:induction false} YieldedFirst(n: Dimension, solutions: seq<Solution>, reports: seq<Report>, all: set<Square>)
    requires Yielded(n, solutions, reports, all) && solutions != [] && |solutions| == |reports|
    ensures solutions[0].0.squares <= all
    ensures Yielded(n, [solutions[0]], [reports[0]], solutions[0].0.squares)
    ensures Yielded(n, solutions[1..], reports[1..], all - solutions[0].0.squares)
    decreases |solutions|
  {
    var k, first := |solutions| - 1, solutions[0].0.squares;
    if k > 0 {
      var last := solutions[k].0.squares;
      YieldedFirst(n, solutions[..k], reports[..k], all - last);
      assert solutions[1..][..k - 1] == solutions[..k][1..] && reports[1..][..k - 1] == reports[..k][1..];
      assert all - first - last == all - last - first;
    }
  }

  lemma StartOfSearch(start: Grid)
    requires start.Valid()
    ensures var n, g := start.sectorDimension, start.View();
            && Searchable(n, []) && Grid.SeparateGrids(n, [], [], {}) && Yielded(n, [], [], {})
            && (Possible(g) ==> Searchable(n, [g]) && Grid.SeparateGrids(n, [start], [g], start.squares))
            && Run(n, State([], 0, [])).reports == []
  {
    hide Run;
    RunEmpty(start.sectorDimension, State([], 0, []));
  }

  /** With nothing on the stack and nothing to hand out, nothing is to come. */
  lemma NothingLeft(n: Dimension, stack: seq<Grid>, frames: seq<Board>, splits: nat, owned: set<Square>,
                    ready: seq<Solution>, waiting: seq<Report>, held: set<Square>)
    requires Holding(n, stack, frames, owned, ready, waiting, held) && stack == [] && ready == []
    ensures Searchable(n, frames) && waiting + Run(n, State(frames, splits, [])).reports == []
  {
    RunEmpty(n, State(frames, splits, []));
  }

  /** The grid on top of the stack and the grids below it. */
  lemma TopOfStack(n: Dimension, stack: seq<Grid>, frames: seq<Board>, owned: set<Square>,
                   ready: seq<Solution>, waiting: seq<Report>, held: set<Square>)
    requires Holding(n, stack, frames, owned, ready, waiting, held) && stack != []
    ensures |frames| == |stack| && Searchable(n, frames) && |waiting| == |ready|
    ensures var k := |stack| - 1;
            && stack[k].Valid() && stack[k].sectorDimension == n && stack[k].squares <= owned
            && stack[k].View() == frames[k] && WellFormed(n, frames[k]) && Possible(frames[k]) && Searchable(n, frames[..k])
            && Grid.SeparateGrids(n, stack[..k], frames[..k], owned - stack[k].squares)
  {
    YieldedLength(n, ready, waiting, held);
    hide Yielded;
  }

  lemma HoldingAfter(n: Dimension, stack: seq<Grid>, frames: seq<Board>, owned: set<Square>,
                     ready: seq<Solution>, waiting: seq<Report>, held: set<Square>)
    requires Searchable(n, frames) && Grid.SeparateGrids(n, stack, frames, owned)
    requires Yielded(n, ready, waiting, held) && owned !! held
    ensures Holding(n, stack, frames, owned, ready, waiting, held)
  {
    hide Yielded, Grid.SeparateGrids, Searchable;
  }

  /** What a turn does to the top of the stack is a step of the state machine. */
  lemma TurnIsStep(n: Dimension, rest: seq<Board>, top: Board, splits: nat)
    requires Searchable(n, rest) && WellFormed(n, top) && Possible(top)
    ensures Searchable(n, rest + [top])
    ensures var e, st := Expand(n, Deduction.Refine(n, top), splits), State(rest + [top], splits, []);
            && Step(n, st) == State(rest + e.frames, e.splits, e.reports) && Searchable(n, rest + e.frames)
            && Run(n, st).reports == Run(n, Step(n, st)).reports
            && 0 <= Cost(n, Step(n, st).frames, 1) < Cost(n, st.frames, 1)
  {
    hide Expand, Deduction.Refine, Run, Cost;
    var st := State(rest + [top], splits, []);
    assert (rest + [top])[..|rest + [top]| - 1] == rest;
    StepCost(n, st);
    RunUnfold(n, st);
  }

  /** Asks for another solution and adds it to those had before. */
  method Collect(generator: SolutionGenerator, sofar: seq<Solution>, ghost done: seq<Report>, ghost all: set<Square>)
    returns (more: bool, solutions: seq<Solution>, ghost done': seq<Report>, ghost all': set<Square>)
    requires generator.Valid() && Yielded(generator.n, sofar, done, all)
    requires all !! generator.owned && all !! generator.held
    modifies generator, generator.owned
    ensures generator.Valid() && Yielded(generator.n, solutions, done', all')
    ensures all' !! generator.owned && all' !! generator.held
    ensures done' + generator.Remaining() == done + old(generator.Remaining())
    ensures if more then |generator.Remaining()| < |old(generator.Remaining())| else generator.Remaining() == []
    ensures fresh(generator.owned - old(generator.owned) - old(generator.held))
    ensures fresh(generator.held - old(generator.owned) - old(generator.held))
  {
    hide Holding, Run, Yielded, Grid.SeparateGrids, Searchable, Cost;
    ghost var left := generator.Remaining();
    var solution, squares := generator.Next();
    more, solutions, done', all' := solution.Some?, sofar, done, all;
    if more {
      YieldedConcat(generator.n, sofar, done, all, [solution.value], [left[0]], squares);
      solutions, done', all' := sofar + [solution.value], done + [left[0]], all + squares;
      assert left == [left[0]] + left[1..];
    }
  }

  /** Asks for all solutions of a grid, one after the other. */
  method Generate(start: Grid) returns (solutions: seq<Solution>, ghost all: set<Square>)
    requires start.Valid()
    modifies start.squares
    ensures Yielded(start.sectorDimension, solutions, Reports(start.sectorDimension, old(start.View())), all)
  {
    hide *;
    ghost var n, goal := start.sectorDimension, Reports(start.sectorDimension, start.View());
    ghost var done: seq<Report> := [];
    solutions, all := [], {};
    var generator := new SolutionGenerator(start);
    var more := true;
    NoneYielded(n);
    while more
      invariant generator.Valid() && generator.n == n && fresh(generator)
      invariant fresh(generator.owned - start.squares) && fresh(generator.held - start.squares)
      invariant Yielded(n, solutions, done, all) && done + generator.Remaining() == goal
      invariant all !! generator.owned && all !! generator.held
      invariant !more ==> generator.Remaining() == []
      decreases |generator.Remaining()| + if more then 1 else 0
    {
      more, solutions, done, all := Collect(generator, solutions, done, all);
    }
    assert done + generator.Remaining() == done;
  }

  lemma NoneYielded(n: Dimension)
    ensures Yielded(n, [], [], {})
  {
  }
}
