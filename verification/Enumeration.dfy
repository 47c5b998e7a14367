/**
 Whole runs of the search: they end, they report every solution exactly once and nothing else, and the number of
 splits stays below twice the product of the start grid's candidate counts.
 */
module Enumeration {
  import opened Geometry
  import opened Candidates
  import opened Propagation
  import opened Deduction
  import opened Search

  // ----- the number of ways to choose one candidate per cell

  function Product(g: Board, cells: seq<Cell>): nat
    requires forall c :: c in cells ==> c in g
    decreases |cells|
  {
    if cells == [] then 1 else |g[cells[0]]| * Product(g, cells[1..])
  }

  function Choices(n: Dimension, g: Board): nat
    requires WellFormed(n, g)
  {
    AllCellsExact(n);
    Product(g, AllCells(n))
  }

  lemma ProductMonotone(a: nat, b: nat, x: nat, y: nat)
    requires a <= x && b <= y
    ensures a * b <= x * y
  {
    assert a * b <= a * y;
    assert a * y <= x * y;
  }

  lemma {:induction false} ProductBelow(a: Board, b: Board, cells: seq<Cell>)
    requires Below(a, b) && forall c :: c in cells ==> c in a
    ensures Product(a, cells) <= Product(b, cells)
    decreases |cells|
  {
    if cells != [] {
      var c := cells[0];
      ProductBelow(a, b, cells[1..]);
      SmallerCount(a[c], b[c]);
      ProductMonotone(|a[c]|, Product(a, cells[1..]), |b[c]|, Product(b, cells[1..]));
    }
  }

  lemma {:induction false} ProductPositive(g: Board, cells: seq<Cell>)
    requires Possible(g) && forall c :: c in cells ==> c in g
    ensures 1 <= Product(g, cells)
    decreases |cells|
  {
    if cells != [] {
      ProductPositive(g, cells[1..]);
      assert g[cells[0]] != {};
      ProductMonotone(1, 1, |g[cells[0]]|, Product(g, cells[1..]));
    }
  }

  lemma {:induction false} ProductElsewhere(g: Board, cells: seq<Cell>, c: Cell, v: Value)
    requires (forall d :: d in cells ==> d in g) && c !in cells
    ensures Product(g[c := {v}], cells) == Product(g, cells)
    decreases |cells|
  {
    if cells != [] {
      ProductElsewhere(g, cells[1..], c, v);
    }
  }

  lemma {:induction false} ProductChosen(g: Board, cells: seq<Cell>, c: Cell, v: Value)
    requires (forall d :: d in cells ==> d in g) && Distinct(cells) && c in cells
    ensures Product(g, cells) == |g[c]| * Product(g[c := {v}], cells)
    decreases |cells|
  {
    var h := g[c := {v}];
    var rest := cells[1..];
    if cells[0] == c {
      ProductElsewhere(g, rest, c, v);
      assert Product(h, cells) == Product(g, rest);
    } else {
      ProductChosen(g, rest, c, v);
      var a, k, p := |g[cells[0]]|, |g[c]|, Product(h, rest);
      assert Product(h, cells) == a * p;
      FactorsSwap(a, k, p);
    }
  }

  lemma FactorsSwap(a: nat, k: nat, p: nat)
    ensures a * (k * p) == k * (a * p)
  {
  }

  /** Choosing a candidate divides the number of choices by the size of the choice. */
  lemma ChosenChoices(n: Dimension, g: Board, c: Cell, w: Value)
    requires WellFormed(n, g) && c in g
    ensures Choices(n, g) == |g[c]| * Choices(n, g[c := {w}])
  {
    AllCellsExact(n);
    ProductChosen(g, AllCells(n), c, w);
  }

  lemma ChoicesBelow(n: Dimension, a: Board, b: Board)
    requires WellFormed(n, b) && Below(a, b)
    ensures Choices(n, a) <= Choices(n, b)
  {
    AllCellsExact(n);
    ProductBelow(a, b, AllCells(n));
  }

  lemma ChoicesAlike(n: Dimension, g: Board, c: Cell, v: Value, w: Value)
    requires WellFormed(n, g) && c in g
    ensures Choices(n, g[c := {v}]) == Choices(n, g[c := {w}])
  {
    var h := g[c := {v}];
    assert h[c := {w}] == g[c := {w}];
    ChosenChoices(n, h, c, w);
    assert |h[c]| == 1;
  }

  /** Which candidate is chosen makes no difference, and propagation adds no choices. */
  lemma PlaceChoices(n: Dimension, g: Board, c: Cell, v: Value, w: Value)
    requires WellFormed(n, g) && c in g
    ensures Choices(n, Place(n, g, c, v)) <= Choices(n, g[c := {w}])
  {
    ChoicesBelow(n, Place(n, g, c, v), g[c := {v}]);
    ChoicesAlike(n, g, c, v, w);
  }

  // ----- the cost still ahead

  /** The sum of 2*P - d over the grids, P being a grid's number of choices. */
  function Cost(n: Dimension, grids: seq<Board>, d: nat): int
    requires forall g :: g in grids ==> WellFormed(n, g)
  {
    if grids == [] then 0
    else
      var g := grids[|grids| - 1];
      Cost(n, grids[..|grids| - 1], d) + 2 * Choices(n, g) - d
  }

  lemma CostOne(n: Dimension, g: Board, d: nat)
    requires WellFormed(n, g)
    ensures Cost(n, [g], d) == 2 * Choices(n, g) - d
  {
    var none: seq<Board> := [];
    assert [g][..0] == none;
  }

  lemma {:induction false} CostConcat(n: Dimension, a: seq<Board>, b: seq<Board>, d: nat)
    requires (forall g :: g in a ==> WellFormed(n, g)) && (forall g :: g in b ==> WellFormed(n, g))
    ensures Cost(n, a + b, d) == Cost(n, a, d) + Cost(n, b, d)
    decreases |b|
  {
    if b == [] {
      assert a + b == a;
    } else {
      assert (a + b)[..|a + b| - 1] == a + b[..|b| - 1];
      CostConcat(n, a, b[..|b| - 1], d);
    }
  }

  lemma {:induction false} CostNonNegative(n: Dimension, grids: seq<Board>, d: nat)
    requires Searchable(n, grids) && d <= 2
    ensures 0 <= Cost(n, grids, d)
    decreases |grids|
  {
    if grids != [] {
      var g := grids[|grids| - 1];
      AllCellsExact(n);
      ProductPositive(g, AllCells(n));
      CostNonNegative(n, grids[..|grids| - 1], d);
    }
  }

  lemma MultipleStep(k: nat, x: nat)
    requires 1 <= k
    ensures (k - 1) * x + x == k * x && (k - 1) * x <= k * x
  {
  }

  lemma OpenCostStep(n: Dimension, grids: seq<Board>, most: nat, d: nat)
    requires grids != [] && 1 <= most && d <= 2
    requires forall g :: g in grids ==> WellFormed(n, g)
    requires Choices(n, grids[|grids| - 1]) <= most
    ensures forall g :: g in grids[..|grids| - 1] ==> g in grids
    ensures Cost(n, Open(grids), d) <= Cost(n, Open(grids[..|grids| - 1]), d) + 2 * most - d
  {
    var front, g := grids[..|grids| - 1], grids[|grids| - 1];
    if Possible(g) && !Complete(g) {
      CostConcat(n, Open(front), [g], d);
      CostOne(n, g, d);
    } else {
      assert Open(grids) == Open(front);
    }
  }

  lemma {:induction false} OpenCost(n: Dimension, grids: seq<Board>, most: nat, d: nat)
    requires 1 <= most && d <= 2
    requires forall g :: g in grids ==> WellFormed(n, g) && Choices(n, g) <= most
    ensures Cost(n, Open(grids), d) <= |grids| * (2 * most - d)
    decreases |grids|
  {
    if grids != [] {
      hide Choices, Open, Cost;
      var k, x := |grids|, 2 * most - d;
      OpenCostStep(n, grids, most, d);
      OpenCost(n, grids[..k - 1], most, d);
      MultipleStep(k, x);
    }
  }

  lemma SplitArithmetic(k: nat, most: nat, total: nat, d: nat)
    requires total == k * most
    ensures k * (2 * most - d) == 2 * total - k * d
  {
    assert k * (2 * most - d) == 2 * (k * most) - k * d;
  }

  /** The parts of a split have at most P / k choices each, for a grid with P choices split into k parts. */
  lemma SplitChoices(n: Dimension, g: Board) returns (most: nat)
    requires WellFormed(n, g) && Possible(g) && Splittable(g)
    ensures 1 <= most && Choices(n, g) == |Split(n, g)| * most
    ensures forall i :: 0 <= i < |Split(n, g)| ==> Choices(n, Split(n, g)[i]) <= most
  {
    var c := SplitCell(n, g);
    var w := Least(g[c]);
    most := Choices(n, g[c := {w}]);
    forall i: nat | i < |Split(n, g)|
      ensures Choices(n, Split(n, g)[i]) <= most
    {
      PlaceChoices(n, g, c, Ascending(g[c])[i], w);
    }
    ChosenChoices(n, g, c, w);
    AllCellsExact(n);
    ProductPositive(g[c := {w}], AllCells(n));
  }

  /** A split into k parts costs at most what it gives back: 2*P - d turns into at most 2*P - k*d. */
  lemma SplitCost(n: Dimension, g: Board, d: nat)
    requires WellFormed(n, g) && Possible(g) && Splittable(g) && d <= 2
    ensures forall p :: p in Open(Split(n, g)) ==> WellFormed(n, p)
    ensures Cost(n, Open(Split(n, g)), d) <= 2 * Choices(n, g) - |Split(n, g)| * d
    ensures 2 <= |Split(n, g)|
  {
    SplitPartsShrink(n, g, 0);
    var most := SplitChoices(n, g);
    OpenCost(n, Split(n, g), most, d);
    SplitArithmetic(|Split(n, g)|, most, Choices(n, g), d);
  }

  lemma RefinedChoices(n: Dimension, top: Board)
    requires WellFormed(n, top) && Possible(top)
    ensures 1 <= Choices(n, top) && Choices(n, Refine(n, top)) <= Choices(n, top)
  {
    AllCellsExact(n);
    ProductPositive(top, AllCells(n));
    ProductBelow(Refine(n, top), top, AllCells(n));
  }

  lemma ExpandCost(n: Dimension, g: Board, splits: nat, most: nat)
    requires WellFormed(n, g) && 1 <= most && Choices(n, g) <= most
    ensures var e := Expand(n, g, splits);
            e.splits + Cost(n, e.frames, 2) <= splits + 2 * most - 2 && Cost(n, e.frames, 1) < 2 * most - 1
  {
    if Possible(g) && !Complete(g) {
      PossibleIncompleteSplittable(g);
      SplitCost(n, g, 1);
      SplitCost(n, g, 2);
      assert Expand(n, g, splits) == Sorted(Split(n, g), Advance(splits, Split(n, g)));
    }
  }

  /** A step never raises the splits so far plus the cost ahead, and it strictly lowers the cost with d = 1. */
  lemma StepCost(n: Dimension, st: State)
    requires st.frames != [] && Searchable(n, st.frames)
    ensures var t := Step(n, st);
            && t.splits + Cost(n, t.frames, 2) <= st.splits + Cost(n, st.frames, 2)
            && 0 <= Cost(n, t.frames, 1) < Cost(n, st.frames, 1)
            && st.splits <= t.splits
  {
    var rest, top := st.frames[..|st.frames| - 1], st.frames[|st.frames| - 1];
    RefinedChoices(n, top);
    var e := Expand(n, Refine(n, top), st.splits);
    ExpandCost(n, Refine(n, top), st.splits, Choices(n, top));
    CostConcat(n, rest, e.frames, 1);
    CostConcat(n, rest, e.frames, 2);
    CostNonNegative(n, Step(n, st).frames, 1);
  }

  // ----- runs

  /** Steps until the stack is empty. */
  ghost function Run(n: Dimension, st: State): (r: State)
    requires Searchable(n, st.frames)
    ensures r.frames == []
    decreases Cost(n, st.frames, 1)
  {
    CostNonNegative(n, st.frames, 1);
    if st.frames == [] then st
    else
      StepCost(n, st);
      Run(n, Step(n, st))
  }

  /** What the search reports when it starts from a grid: nothing at all if the grid is impossible. */
  ghost function Reports(n: Dimension, g: Board): seq<Report>
    requires WellFormed(n, g)
  {
    if Possible(g) then Run(n, State([g], 0, [])).reports else []
  }

  lemma RunEmpty(n: Dimension, st: State)
    requires st.frames == []
    ensures Run(n, st) == st
  {
  }

  lemma RunUnfold(n: Dimension, st: State)
    requires st.frames != [] && Searchable(n, st.frames)
    ensures Run(n, st) == Run(n, Step(n, st))
  {
    CostNonNegative(n, st.frames, 1);
    StepCost(n, st);
  }

  /** What is reported later does not depend on what has been reported before. */
  lemma {:induction false} RunReports(n: Dimension, frames: seq<Board>, splits: nat, reports: seq<Report>)
    requires Searchable(n, frames)
    ensures Run(n, State(frames, splits, reports)).reports == reports + Run(n, State(frames, splits, [])).reports
    ensures Run(n, State(frames, splits, reports)).splits == Run(n, State(frames, splits, [])).splits
    decreases Cost(n, frames, 1)
  {
    hide Step, Run, Cost, Searchable;
    CostNonNegative(n, frames, 1);
    if frames == [] {
      RunEmpty(n, State(frames, splits, []));
      RunEmpty(n, State(frames, splits, reports));
      assert reports + [] == reports;
    } else {
      var t := Step(n, State(frames, splits, []));
      StepWithReports(n, frames, splits, reports);
      StepCost(n, State(frames, splits, []));
      RunUnfold(n, State(frames, splits, []));
      RunUnfold(n, State(frames, splits, reports));
      RunReports(n, t.frames, t.splits, t.reports);
      RunReports(n, t.frames, t.splits, reports + t.reports);
      var more := Run(n, State(t.frames, t.splits, [])).reports;
      assert reports + (t.reports + more) == reports + t.reports + more;
    }
  }

  lemma StepWithReports(n: Dimension, frames: seq<Board>, splits: nat, reports: seq<Report>)
    requires frames != [] && Searchable(n, frames)
    ensures var t := Step(n, State(frames, splits, []));
            Step(n, State(frames, splits, reports)) == State(t.frames, t.splits, reports + t.reports)
  {
    hide Expand, Refine, Searchable;
  }

  lemma {:induction false} RunConserves(n: Dimension, start: Board, st: State, s: Assignment)
    requires Sound(n, start, st)
    ensures Searchable(n, st.frames)
    ensures Showing(s, Run(n, st).reports) <= Counted(n, st, s)
    ensures InRange(n, start) ==> Showing(s, Run(n, st).reports) == Counted(n, st, s)
    decreases Cost(n, st.frames, 1)
  {
    CostNonNegative(n, st.frames, 1);
    if st.frames != [] {
      StepCost(n, st);
      StepSound(n, start, st);
      StepConserves(n, start, st, s);
      RunConserves(n, start, Step(n, st), s);
    }
  }

  lemma {:induction false} RunSound(n: Dimension, start: Board, st: State)
    requires Sound(n, start, st)
    ensures Searchable(n, st.frames) && Sound(n, start, Run(n, st))
    decreases Cost(n, st.frames, 1)
  {
    CostNonNegative(n, st.frames, 1);
    if st.frames != [] {
      StepCost(n, st);
      StepSound(n, start, st);
      RunSound(n, start, Step(n, st));
    }
  }

  lemma {:induction false} ShowingMember(s: Assignment, reports: seq<Report>)
    ensures Showing(s, reports) == 0 <==> forall x :: x in reports ==> x.grid != Shown(s)
    ensures Showing(s, reports) <= 1
            <==> forall i, j :: 0 <= i < j < |reports| ==> !(reports[i].grid == Shown(s) && reports[j].grid == Shown(s))
    decreases |reports|
  {
    if reports != [] {
      var front, last := reports[..|reports| - 1], reports[|reports| - 1];
      assert reports == front + [last];
      ShowingMember(s, front);
    }
  }

  /** The report at an index shows the assignment. */
  predicate ShownAt(s: Assignment, reports: seq<Report>, i: int) {
    0 <= i < |reports| && reports[i].grid == Shown(s)
  }

  lemma SearchCounts(n: Dimension, g: Board, s: Assignment)
    requires WellFormed(n, g) && PeerConsistent(n, g)
    ensures Showing(s, Reports(n, g)) <= if Completes(n, s, g) then 1 else 0
    ensures InRange(n, g) ==> Showing(s, Reports(n, g)) == if Completes(n, s, g) then 1 else 0
  {
    hide Run, Completes, Refine, Step;
    if Possible(g) {
      RunConserves(n, g, State([g], 0, []), s);
      CompletingOne(n, s, g);
    } else if Completes(n, s, g) {
      CompletionMakesPossible(n, s, g);
    }
  }

  lemma CompletionIsSudoku(n: Dimension, g: Board, s: Assignment)
    requires WellFormed(n, g) && InRange(n, g) && Completes(n, s, g)
    ensures ValidSudoku(n, s)
  {
    hide ValidSudoku, PeersDiffer;
    ValidSudokuIff(n, s);
  }

  /**
   Exact enumeration: only completions of the start grid are reported, none of them twice, and from a start grid in
   range all of them are; these are then filled-in sudokus.
   */
  lemma SearchExact(n: Dimension, g: Board, s: Assignment)
    requires WellFormed(n, g) && PeerConsistent(n, g)
    ensures (exists i :: ShownAt(s, Reports(n, g), i)) ==> Completes(n, s, g)
    ensures InRange(n, g) && Completes(n, s, g) ==> (exists i :: ShownAt(s, Reports(n, g), i)) && ValidSudoku(n, s)
    ensures forall i, j :: ShownAt(s, Reports(n, g), i) && ShownAt(s, Reports(n, g), j) ==> i == j
  {
    hide Run, Completes, PeerConsistent, Reports, InRange;
    var reports := Reports(n, g);
    SearchCounts(n, g, s);
    ShowingMember(s, reports);
    if InRange(n, g) && Completes(n, s, g) {
      var x :| x in reports && x.grid == Shown(s);
      var i :| 0 <= i < |reports| && reports[i] == x;
      assert ShownAt(s, reports, i);
      CompletionIsSudoku(n, g, s);
    }
  }

  lemma ReportsSound(n: Dimension, g: Board)
    requires WellFormed(n, g) && PeerConsistent(n, g)
    ensures forall x :: x in Reports(n, g) ==> SoundGrid(n, g, x.grid) && Complete(x.grid)
  {
    if Possible(g) {
      RunSound(n, g, State([g], 0, []));
    }
  }

  /** Every report shows an assignment that completes the start grid; its values need not be in range. */
  lemma ReportShowsSolution(n: Dimension, g: Board, x: Report) returns (s: Assignment)
    requires WellFormed(n, g) && PeerConsistent(n, g) && x in Reports(n, g)
    ensures x.grid == Shown(s) && Completes(n, s, g)
  {
    ReportsSound(n, g);
    s := CompleteGridIsSolution(n, x.grid);
    BelowCompletes(n, s, x.grid, g);
  }

  // ----- the number of splits

  predicate AscendingSplits(reports: seq<Report>, most: int) {
    && (forall i, j :: 0 <= i < j < |reports| ==> reports[i].splits <= reports[j].splits)
    && (forall i :: 0 <= i < |reports| ==> reports[i].splits <= most)
  }

  lemma StepSplits(n: Dimension, st: State)
    requires st.frames != [] && Searchable(n, st.frames) && AscendingSplits(st.reports, st.splits)
    ensures AscendingSplits(Step(n, st).reports, Step(n, st).splits)
  {
    StepCost(n, st);
    var g := Refine(n, st.frames[|st.frames| - 1]);
    ExpandReports(n, g, st.splits);
    AscendingAppend(st.reports, st.splits, Expand(n, g, st.splits).reports, Step(n, st).splits);
  }

  lemma ExpandReports(n: Dimension, g: Board, splits: nat)
    requires WellFormed(n, g)
    ensures var e := Expand(n, g, splits); forall x :: x in e.reports ==> x.splits == e.splits
  {
  }

  lemma AscendingAppend(xs: seq<Report>, before: int, ys: seq<Report>, after: int)
    requires AscendingSplits(xs, before) && before <= after && forall y :: y in ys ==> y.splits == after
    ensures AscendingSplits(xs + ys, after)
  {
    forall i | 0 <= i < |ys|
      ensures ys[i].splits == after
    {
      assert ys[i] in ys;
    }
  }

  lemma {:induction false} RunSplits(n: Dimension, st: State)
    requires Searchable(n, st.frames) && AscendingSplits(st.reports, st.splits)
    ensures AscendingSplits(Run(n, st).reports, Run(n, st).splits)
    ensures Run(n, st).splits <= st.splits + Cost(n, st.frames, 2)
    decreases Cost(n, st.frames, 1)
  {
    CostNonNegative(n, st.frames, 1);
    if st.frames != [] {
      StepCost(n, st);
      StepSplits(n, st);
      RunSplits(n, Step(n, st));
    }
  }

  /** Reported split counts never fall, and stay within 2*P - 2 for P choices in the start grid. */
  lemma SearchSplitBound(n: Dimension, g: Board)
    requires WellFormed(n, g)
    ensures Possible(g) ==> AscendingSplits(Reports(n, g), 2 * Choices(n, g) - 2)
  {
    if Possible(g) {
      CostOne(n, g, 2);
      RunSplits(n, State([g], 0, []));
    }
  }
}
