/**
 The search for all solutions: depth first with an explicit stack of grids. A step takes the top grid, refines
 it, and either reports it, drops it, or splits it and stacks the possible parts that are not yet complete.
 */
module Search {
  import opened Geometry
  import opened Candidates
  import opened Propagation
  import opened Deduction

  // ----- splitting

  /** The first cell, in row-major order, among those with the fewest candidates but at least two. */
  ghost predicate IsSplitCell(g: Board, c: Cell) {
    && c in g
    && 1 < |g[c]|
    && forall d :: d in g && 1 < |g[d]| ==>
         |g[c]| < |g[d]| || (|g[c]| == |g[d]| && NotAfter(c, d))
  }

  ghost predicate Splittable(g: Board) {
    exists c :: c in g && 1 < |g[c]|
  }

  lemma {:induction false} SplitCellAmong(g: Board, cells: set<Cell>) returns (c: Cell)
    requires cells != {} && forall d :: d in cells ==> d in g && 1 < |g[d]|
    ensures c in cells
    ensures forall d :: d in cells ==>
      |g[c]| < |g[d]| || (|g[c]| == |g[d]| && NotAfter(c, d))
    decreases |cells|
  {
    c :| c in cells;
    var rest := cells - {c};
    assert forall d :: d in cells <==> d == c || d in rest;
    if rest != {} {
      assert |rest| < |cells|;
      var e := SplitCellAmong(g, rest);
      if |g[e]| < |g[c]| || (|g[e]| == |g[c]| && NotAfter(e, c)) {
        c := e;
      }
    }
  }

  ghost function SplitCell(n: Dimension, g: Board): (c: Cell)
    requires WellFormed(n, g) && Splittable(g)
    ensures IsSplitCell(g, c)
  {
    SplitCellExists(n, g);
    var c :| IsSplitCell(g, c);
    c
  }

  lemma SplitCellExists(n: Dimension, g: Board)
    requires WellFormed(n, g) && Splittable(g)
    ensures exists c :: IsSplitCell(g, c)
  {
    var cells := set d | d in g && 1 < |g[d]|;
    var e :| e in g && 1 < |g[e]|;
    assert e in cells;
    var c := SplitCellAmong(g, cells);
    assert forall d :: d in g && 1 < |g[d]| ==> d in cells;
    assert IsSplitCell(g, c);
  }

  lemma SplitCellUnique(n: Dimension, g: Board, c: Cell)
    requires WellFormed(n, g) && IsSplitCell(g, c)
    ensures c == SplitCell(n, g)
  {
    var d := SplitCell(n, g);
  }

  /** The cells with at least two candidates among the first k cells, in row-major order. */
  function SplitCandidates(n: Dimension, g: Board, k: nat): seq<Cell>
    requires WellFormed(n, g) && k <= Side(n) * Side(n)
  {
    if k == 0 then []
    else
      CellAt(n, k - 1);
      var c := AllCells(n)[k - 1];
      SplitCandidates(n, g, k - 1) + if 1 < |g[c]| then [c] else []
  }

  /** The first of the cells with the fewest candidates. */
  function FirstFewest(g: Board, cells: seq<Cell>): (c: Cell)
    requires cells != [] && forall d :: d in cells ==> d in g
    ensures c in cells
    decreases |cells|
  {
    var last := cells[|cells| - 1];
    if |cells| == 1 then last
    else
      var c := FirstFewest(g, cells[..|cells| - 1]);
      if |g[last]| < |g[c]| then last else c
  }

  /** The listed cells are those with at least two candidates. */
  lemma {:induction false} CandidatesExact(n: Dimension, g: Board, k: nat)
    requires WellFormed(n, g) && k <= Side(n) * Side(n)
    ensures forall c :: c in SplitCandidates(n, g, k) ==> c in AllCells(n)[..k] && c in g && 1 < |g[c]|
    ensures forall c :: c in AllCells(n)[..k] && c in g && 1 < |g[c]| ==> c in SplitCandidates(n, g, k)
    decreases k
  {
    if k != 0 {
      var cells := AllCells(n);
      assert cells[..k] == cells[..k - 1] + [cells[k - 1]];
      CandidatesExact(n, g, k - 1);
      CellAt(n, k - 1);
    }
  }

  lemma {:induction false} CandidatesOrdered(n: Dimension, g: Board, k: nat)
    requires WellFormed(n, g) && k <= Side(n) * Side(n)
    ensures InRowMajorOrder(SplitCandidates(n, g, k))
    decreases k
  {
    if k != 0 {
      CandidatesOrdered(n, g, k - 1);
      CandidatesExact(n, g, k - 1);
      var front, c := SplitCandidates(n, g, k - 1), AllCells(n)[k - 1];
      forall d | d in front
        ensures NotAfter(d, c)
      {
        var i :| 0 <= i < k - 1 && AllCells(n)[i] == d;
        AllCellsOrdered(n, i, k - 1);
      }
    }
  }

  lemma FirstFewestStep(g: Board, cells: seq<Cell>, i: nat)
    requires 0 < i < |cells| && forall d :: d in cells ==> d in g
    ensures var c := FirstFewest(g, cells[..i]);
            FirstFewest(g, cells[..i + 1]) == if |g[cells[i]]| < |g[c]| then cells[i] else c
  {
    assert cells[..i + 1][..i] == cells[..i];
  }

  predicate InRowMajorOrder(cells: seq<Cell>) {
    forall i, j :: 0 <= i < j < |cells| ==> NotAfter(cells[i], cells[j])
  }

  lemma {:induction false} FirstFewestExact(g: Board, cells: seq<Cell>)
    requires cells != [] && (forall d :: d in cells ==> d in g) && InRowMajorOrder(cells)
    ensures var c := FirstFewest(g, cells);
            forall d :: d in cells ==> |g[c]| < |g[d]| || (|g[c]| == |g[d]| && NotAfter(c, d))
    decreases |cells|
  {
    var front, last := cells[..|cells| - 1], cells[|cells| - 1];
    assert cells == front + [last];
    if front != [] {
      FirstFewestExact(g, front);
    }
  }

  /** Listing the cells that can be split and taking the first of the smallest finds the split cell. */
  lemma ListedMinimumIsSplitCell(n: Dimension, g: Board)
    requires WellFormed(n, g)
    ensures var cells := SplitCandidates(n, g, Side(n) * Side(n));
            && (cells != [] <==> Splittable(g))
            && (forall d :: d in cells ==> d in g)
            && (cells != [] ==> FirstFewest(g, cells) == SplitCell(n, g))
  {
    var cells := SplitCandidates(n, g, Side(n) * Side(n));
    CandidatesExact(n, g, Side(n) * Side(n));
    CandidatesOrdered(n, g, Side(n) * Side(n));
    AllCellsExact(n);
    assert AllCells(n)[..Side(n) * Side(n)] == AllCells(n);
    if cells != [] {
      assert cells[0] in cells;
      FirstFewestExact(g, cells);
      SplitCellUnique(n, g, FirstFewest(g, cells));
    }
  }

  ghost function Branches(n: Dimension, g: Board, c: Cell, values: seq<Value>): (r: seq<Board>)
    requires WellFormed(n, g) && InGrid(n, c)
    ensures |r| == |values|
    ensures forall i :: 0 <= i < |r| ==> r[i] == Place(n, g, c, values[i])
  {
    seq(|values|, i requires 0 <= i < |values| => Place(n, g, c, values[i]))
  }

  lemma BranchesAppend(n: Dimension, g: Board, c: Cell, values: seq<Value>, i: nat)
    requires WellFormed(n, g) && InGrid(n, c) && i < |values|
    ensures Branches(n, g, c, values[..i + 1]) == Branches(n, g, c, values[..i]) + [Place(n, g, c, values[i])]
  {
    hide Place;
  }

  /** One new grid per candidate of the split cell, in ascending order of the candidate. */
  ghost function Split(n: Dimension, g: Board): (parts: seq<Board>)
    requires WellFormed(n, g) && Splittable(g)
    ensures forall p :: p in parts ==> WellFormed(n, p)
  {
    var c := SplitCell(n, g);
    Branches(n, g, c, Ascending(g[c]))
  }

  /** How many of the grids an assignment completes. */
  ghost function Completing(n: Dimension, s: Assignment, grids: seq<Board>): nat {
    if grids == [] then 0
    else Completing(n, s, grids[..|grids| - 1]) + if Completes(n, s, grids[|grids| - 1]) then 1 else 0
  }

  lemma {:induction false} CompletingConcat(n: Dimension, s: Assignment, a: seq<Board>, b: seq<Board>)
    ensures Completing(n, s, a + b) == Completing(n, s, a) + Completing(n, s, b)
    decreases |b|
  {
    if b == [] {
      assert a + b == a;
    } else {
      assert (a + b)[..|a + b| - 1] == a + b[..|b| - 1];
      CompletingConcat(n, s, a, b[..|b| - 1]);
    }
  }

  lemma CompletingOne(n: Dimension, s: Assignment, g: Board)
    ensures Completing(n, s, [g]) == if Completes(n, s, g) then 1 else 0
  {
    var none: seq<Board> := [];
    assert [g][..0] == none;
  }

  lemma {:induction false} BranchesPartition(n: Dimension, g: Board, c: Cell, values: seq<Value>, s: Assignment)
    requires WellFormed(n, g) && InGrid(n, c)
    requires forall v :: v in values ==> v in g[c]
    requires Distinct(values)
    ensures Completing(n, s, Branches(n, g, c, values))
            == if Completes(n, s, g) && s[c] in values then 1 else 0
    decreases |values|
  {
    hide Place, Completes;
    if values != [] {
      var front, v := values[..|values| - 1], values[|values| - 1];
      assert values == front + [v];
      var grids := Branches(n, g, c, values);
      assert grids[..|grids| - 1] == Branches(n, g, c, front);
      BranchesPartition(n, g, c, front, s);
      PlaceSelectsCompletions(n, g, c, v, s);
    }
  }

  /** Every completion of the split grid completes exactly one of its parts. */
  lemma SplitPartitions(n: Dimension, g: Board, s: Assignment)
    requires WellFormed(n, g) && Splittable(g)
    ensures Completing(n, s, Split(n, g)) == if Completes(n, s, g) then 1 else 0
  {
    var c := SplitCell(n, g);
    BranchesPartition(n, g, c, Ascending(g[c]), s);
  }

  /** Each part has strictly fewer candidates, and is peer consistent if the split grid is. */
  lemma SplitPartsShrink(n: Dimension, g: Board, i: nat)
    requires WellFormed(n, g) && Splittable(g) && i < |Split(n, g)|
    ensures |Split(n, g)| == |g[SplitCell(n, g)]| >= 2
    ensures Below(Split(n, g)[i], g) && Pairs(Split(n, g)[i]) < Pairs(g)
    ensures PeerConsistent(n, g) ==> PeerConsistent(n, Split(n, g)[i])
  {
    var c := SplitCell(n, g);
    var v := Ascending(g[c])[i];
    ChoiceShrinks(g, c, v);
    BelowPairs(Place(n, g, c, v), g[c := {v}]);
    if PeerConsistent(n, g) {
      PlaceConsistent(n, g, c, v);
    }
  }

  lemma {:induction false} SmallerMembers(values: seq<Value>, i: nat)
    requires StrictlyAscending(values) && i < |values|
    ensures |set u | u in values && u < values[i]| == i
    decreases i
  {
    var smaller := set u | u in values && u < values[i];
    if i == 0 {
      assert smaller == {};
    } else {
      SmallerMembers(values, i - 1);
      var before := set u | u in values && u < values[i - 1];
      assert smaller == before + {values[i - 1]};
    }
  }

  /**
   The parts of a split in order: part i has the candidate of the split cell that exactly i of the others are smaller
   than.
   */
  lemma SplitPart(n: Dimension, g: Board, c: Cell, i: nat) returns (v: Value)
    requires WellFormed(n, g) && IsSplitCell(g, c) && i < |g[c]|
    ensures Splittable(g) && |Split(n, g)| == |g[c]|
    ensures v in g[c] && |set u | u in g[c] && u < v| == i
    ensures Split(n, g)[i] == Place(n, g, c, v)
  {
    hide Place;
    SplitCellUnique(n, g, c);
    var values := Ascending(g[c]);
    v := values[i];
    SmallerMembers(values, i);
    assert (set u | u in values && u < values[i]) == (set u | u in g[c] && u < v);
  }

  // ----- the search as a state machine

  /** A reported grid with the number of splits performed up to then. */
  datatype Report = Report(grid: Board, splits: nat)

  /** The grids still to be searched, the top of the stack last, and what has been reported so far. */
  datatype State = State(frames: seq<Board>, splits: nat, reports: seq<Report>)

  ghost function Open(grids: seq<Board>): (r: seq<Board>)
    ensures forall g :: g in r ==> g in grids && Possible(g) && !Complete(g)
  {
    if grids == [] then []
    else
      var g := grids[|grids| - 1];
      Open(grids[..|grids| - 1]) + if Possible(g) && !Complete(g) then [g] else []
  }

  ghost function Finished(grids: seq<Board>, splits: nat): (r: seq<Report>)
    ensures forall x :: x in r ==> x.grid in grids && Complete(x.grid) && x.splits == splits
  {
    if grids == [] then []
    else
      var g := grids[|grids| - 1];
      Finished(grids[..|grids| - 1], splits) + if Complete(g) then [Report(g, splits)] else []
  }

  lemma OpenStep(grids: seq<Board>, i: nat)
    requires i < |grids|
    ensures Open(grids[..i + 1]) == Open(grids[..i]) + if Possible(grids[i]) && !Complete(grids[i]) then [grids[i]] else []
  {
    assert grids[..i + 1][..i] == grids[..i];
  }

  lemma FinishedStep(grids: seq<Board>, i: nat, splits: nat)
    requires i < |grids|
    ensures Finished(grids[..i + 1], splits)
            == Finished(grids[..i], splits) + if Complete(grids[i]) then [Report(grids[i], splits)] else []
  {
    assert grids[..i + 1][..i] == grids[..i];
  }

  /** The places, in ascending order, at which a list of flags is set. */
  predicate Places(flags: seq<bool>, places: seq<nat>) {
    && (forall i, j :: 0 <= i < j < |places| ==> places[i] < places[j])
    && (forall k :: 0 <= k < |places| ==> places[k] < |flags| && flags[places[k]])
    && (forall i :: 0 <= i < |flags| && flags[i] ==> i in places)
  }

  lemma PlacesAppend(flags: seq<bool>, places: seq<nat>, flag: bool)
    requires Places(flags, places)
    ensures Places(flags + [flag], places + if flag then [|flags|] else [])
  {
    var more := places + if flag then [|flags|] else [];
    forall i | 0 <= i < |flags| + 1 && (flags + [flag])[i]
      ensures i in more
    {
      assert i < |flags| ==> i in places;
    }
  }

  /** The grids at some places of a list. */
  ghost predicate Picked(picked: seq<Board>, grids: seq<Board>, places: seq<nat>) {
    |picked| == |places| && forall k :: 0 <= k < |places| ==> places[k] < |grids| && picked[k] == grids[places[k]]
  }

  lemma PickedAppend(picked: seq<Board>, grids: seq<Board>, places: seq<nat>, g: Board, flag: bool)
    requires Picked(picked, grids, places)
    ensures Picked(picked + if flag then [g] else [], grids + [g], places + if flag then [|grids|] else [])
  {
  }

  ghost function OpenFlags(grids: seq<Board>): (flags: seq<bool>)
    ensures |flags| == |grids| && forall i :: 0 <= i < |grids| ==> flags[i] == (Possible(grids[i]) && !Complete(grids[i]))
  {
    seq(|grids|, i requires 0 <= i < |grids| => Possible(grids[i]) && !Complete(grids[i]))
  }

  ghost function CompleteFlags(grids: seq<Board>): (flags: seq<bool>)
    ensures |flags| == |grids| && forall i :: 0 <= i < |grids| ==> flags[i] == Complete(grids[i])
  {
    seq(|grids|, i requires 0 <= i < |grids| => Complete(grids[i]))
  }

  /** The grids to be stacked are the possible ones that are not complete, in the order in which they are given. */
  lemma {:induction false} OpenExact(grids: seq<Board>) returns (places: seq<nat>)
    ensures Places(OpenFlags(grids), places) && Picked(Open(grids), grids, places)
    decreases |grids|
  {
    hide Possible, Complete, Places, Picked;
    places := [];
    if grids == [] {
      NonePicked();
      assert OpenFlags(grids) == [];
    } else {
      var k := |grids| - 1;
      var g, front := grids[k], grids[..k];
      var flag := Possible(g) && !Complete(g);
      places := OpenExact(front);
      PlacesAppend(OpenFlags(front), places, flag);
      PickedAppend(Open(front), front, places, g, flag);
      assert OpenFlags(front) + [flag] == OpenFlags(grids) && front + [g] == grids;
      places := places + if flag then [k] else [];
    }
  }

  lemma NonePicked()
    ensures Places([], []) && Picked([], [], [])
  {
  }

  ghost function GridsOf(reports: seq<Report>): (grids: seq<Board>)
    ensures |grids| == |reports| && forall i :: 0 <= i < |grids| ==> grids[i] == reports[i].grid
  {
    seq(|reports|, i requires 0 <= i < |reports| => reports[i].grid)
  }

  /** The grids reported of a split are the complete ones, in the order in which they are given, with the same count. */
  lemma {:induction false} FinishedExact(grids: seq<Board>, splits: nat) returns (places: seq<nat>)
    ensures Places(CompleteFlags(grids), places) && Picked(GridsOf(Finished(grids, splits)), grids, places)
    ensures forall x :: x in Finished(grids, splits) ==> x.splits == splits
    decreases |grids|
  {
    hide Complete, Places, Picked;
    places := [];
    if grids == [] {
      NonePicked();
      assert CompleteFlags(grids) == [] && GridsOf(Finished(grids, splits)) == [];
    } else {
      var k := |grids| - 1;
      var g, front := grids[k], grids[..k];
      var flag := Complete(g);
      places := FinishedExact(front, splits);
      PlacesAppend(CompleteFlags(front), places, flag);
      PickedAppend(GridsOf(Finished(front, splits)), front, places, g, flag);
      assert CompleteFlags(front) + [flag] == CompleteFlags(grids) && front + [g] == grids;
      assert GridsOf(Finished(grids, splits)) == GridsOf(Finished(front, splits)) + if flag then [g] else [];
      places := places + if flag then [k] else [];
    }
  }

  predicate Searchable(n: Dimension, frames: seq<Board>) {
    forall g :: g in frames ==> WellFormed(n, g) && Possible(g)
  }

  lemma PossibleIncompleteSplittable(g: Board)
    requires Possible(g) && !Complete(g)
    ensures Splittable(g)
  {
  }

  /** The new grids of a split, sorted into those to be stacked and those to be reported at once. */
  ghost function Sorted(parts: seq<Board>, splits: nat): State {
    State(Open(parts), splits, Finished(parts, splits))
  }

  /** The split counter goes up by the number of new grids. */
  function Advance(splits: nat, parts: seq<Board>): nat {
    splits + |parts|
  }

  /** What becomes of a refined grid: the grids to be stacked, the new split count, and the new reports. */
  ghost function Expand(n: Dimension, g: Board, splits: nat): (r: State)
    requires WellFormed(n, g)
    ensures Searchable(n, r.frames)
  {
    if Complete(g) then State([], splits, [Report(g, splits)])
    else if Possible(g) then
      PossibleIncompleteSplittable(g);
      Sorted(Split(n, g), Advance(splits, Split(n, g)))
    else State([], splits, [])
  }

  lemma ExpandComplete(n: Dimension, g: Board, splits: nat)
    requires WellFormed(n, g) && Complete(g)
    ensures Expand(n, g, splits) == State([], splits, [Report(g, splits)])
  {
  }

  lemma ExpandPossible(n: Dimension, g: Board, splits: nat)
    requires WellFormed(n, g) && Possible(g) && !Complete(g)
    ensures Splittable(g)
    ensures Expand(n, g, splits) == Sorted(Split(n, g), Advance(splits, Split(n, g)))
  {
    PossibleIncompleteSplittable(g);
  }

  lemma ExpandImpossible(n: Dimension, g: Board, splits: nat)
    requires WellFormed(n, g) && !Possible(g) && !Complete(g)
    ensures Expand(n, g, splits) == State([], splits, [])
  {
  }

  ghost function Step(n: Dimension, st: State): (r: State)
    requires st.frames != [] && Searchable(n, st.frames)
    ensures Searchable(n, r.frames)
  {
    var rest, top := st.frames[..|st.frames| - 1], st.frames[|st.frames| - 1];
    var e := Expand(n, Refine(n, top), st.splits);
    State(rest + e.frames, e.splits, st.reports + e.reports)
  }

  /**
   A step takes the top of the stack, refines it, and counts as many splits as the split cell has candidates, or none if
   the refined grid is complete or impossible. The grids below the top stay where they are.
   */
  lemma StepExact(n: Dimension, st: State, c: Cell)
    requires st.frames != [] && Searchable(n, st.frames)
    ensures var k, g, t := |st.frames| - 1, Refine(n, st.frames[|st.frames| - 1]), Step(n, st);
            && (Possible(g) && !Complete(g) && IsSplitCell(g, c) ==>
                  && Splittable(g)
                  && t.splits == st.splits + |g[c]|
                  && t.frames == st.frames[..k] + Open(Split(n, g))
                  && t.reports == st.reports + Finished(Split(n, g), t.splits))
            && (Complete(g) ==> t == State(st.frames[..k], st.splits, st.reports + [Report(g, st.splits)]))
            && (!Complete(g) && !Possible(g) ==> t == State(st.frames[..k], st.splits, st.reports))
  {
    hide Refine, Possible, Complete, Open, Finished, Place;
    var k, g := |st.frames| - 1, Refine(n, st.frames[|st.frames| - 1]);
    if Complete(g) {
      ExpandComplete(n, g, st.splits);
    } else if Possible(g) {
      ExpandPossible(n, g, st.splits);
      if IsSplitCell(g, c) {
        SplitCellUnique(n, g, c);
      }
    } else {
      ExpandImpossible(n, g, st.splits);
    }
  }

  // ----- conservation of solutions

  /** How many of the reports show an assignment. */
  ghost function Showing(s: Assignment, reports: seq<Report>): nat {
    if reports == [] then 0
    else Showing(s, reports[..|reports| - 1]) + if reports[|reports| - 1].grid == Shown(s) then 1 else 0
  }

  lemma {:induction false} ShowingConcat(s: Assignment, a: seq<Report>, b: seq<Report>)
    ensures Showing(s, a + b) == Showing(s, a) + Showing(s, b)
    decreases |b|
  {
    if b == [] {
      assert a + b == a;
    } else {
      assert (a + b)[..|a + b| - 1] == a + b[..|b| - 1];
      ShowingConcat(s, a, b[..|b| - 1]);
    }
  }

  lemma ShowingOne(s: Assignment, x: Report)
    ensures Showing(s, [x]) == if x.grid == Shown(s) then 1 else 0
  {
    var none: seq<Report> := [];
    assert [x][..0] == none;
  }

  lemma ShownInjective(s: Assignment, t: Assignment)
    requires Shown(s) == Shown(t)
    ensures s == t
  {
    assert s.Keys == Shown(s).Keys == Shown(t).Keys == t.Keys;
    forall c | c in s
      ensures s[c] == t[c]
    {
      assert s[c] in Shown(t)[c];
    }
  }

  /** A complete consistent grid has exactly one completion, the assignment it shows. */
  lemma CompleteShows(n: Dimension, g: Board, s: Assignment)
    requires WellFormed(n, g) && PeerConsistent(n, g) && Complete(g)
    ensures Completes(n, s, g) <==> g == Shown(s)
  {
    var t := CompleteGridIsSolution(n, g);
    if g == Shown(s) {
      ShownInjective(s, t);
    }
  }

  lemma CompletionMakesPossible(n: Dimension, s: Assignment, g: Board)
    requires Completes(n, s, g)
    ensures Possible(g)
  {
    forall c | c in g
      ensures g[c] != {}
    {
      assert s[c] in g[c];
    }
  }

  lemma PartConserves(n: Dimension, g: Board, splits: nat, s: Assignment)
    requires WellFormed(n, g) && PeerConsistent(n, g)
    ensures (if Possible(g) && !Complete(g) && Completes(n, s, g) then 1 else 0)
            + (if Complete(g) && g == Shown(s) then 1 else 0) == if Completes(n, s, g) then 1 else 0
  {
    if Complete(g) {
      CompleteShows(n, g, s);
    } else if Completes(n, s, g) {
      CompletionMakesPossible(n, s, g);
    }
  }

  lemma {:induction false} PartsConserve(n: Dimension, grids: seq<Board>, splits: nat, s: Assignment)
    requires forall g :: g in grids ==> WellFormed(n, g) && PeerConsistent(n, g)
    ensures Completing(n, s, Open(grids)) + Showing(s, Finished(grids, splits)) == Completing(n, s, grids)
    decreases |grids|
  {
    if grids != [] {
      var front, g := grids[..|grids| - 1], grids[|grids| - 1];
      PartsConserve(n, front, splits, s);
      PartConserves(n, g, splits, s);
      CompletingConcat(n, s, Open(front), if Possible(g) && !Complete(g) then [g] else []);
      ShowingConcat(s, Finished(front, splits), if Complete(g) then [Report(g, splits)] else []);
      CompletingOne(n, s, g);
      ShowingOne(s, Report(g, splits));
    }
  }

  predicate SoundGrid(n: Dimension, start: Board, g: Board) {
    WellFormed(n, g) && PeerConsistent(n, g) && Below(g, start)
  }

  /** What holds of every stack and report the search builds. */
  ghost predicate Sound(n: Dimension, start: Board, st: State) {
    && (forall g :: g in st.frames ==> SoundGrid(n, start, g) && Possible(g))
    && (forall x :: x in st.reports ==> SoundGrid(n, start, x.grid) && Complete(x.grid))
  }

  lemma SplitSound(n: Dimension, start: Board, g: Board)
    requires SoundGrid(n, start, g) && Splittable(g)
    ensures forall p :: p in Split(n, g) ==> SoundGrid(n, start, p)
  {
    forall i: nat | i < |Split(n, g)|
      ensures SoundGrid(n, start, Split(n, g)[i])
    {
      SplitPartsShrink(n, g, i);
    }
  }

  lemma ExpandSound(n: Dimension, start: Board, g: Board, splits: nat)
    requires SoundGrid(n, start, g)
    ensures Sound(n, start, Expand(n, g, splits))
  {
    if Possible(g) && !Complete(g) {
      PossibleIncompleteSplittable(g);
      SplitSound(n, start, g);
    }
  }

  lemma StepSound(n: Dimension, start: Board, st: State)
    requires st.frames != [] && Sound(n, start, st)
    ensures Searchable(n, st.frames) && Sound(n, start, Step(n, st))
  {
    var top := st.frames[|st.frames| - 1];
    assert SoundGrid(n, start, top);
    RefineConsistent(n, top);
    ExpandSound(n, start, Refine(n, top), st.splits);
  }

  /** How many stacked grids and reports an assignment completes or is shown by. */
  ghost function Counted(n: Dimension, st: State, s: Assignment): nat {
    Completing(n, s, st.frames) + Showing(s, st.reports)
  }

  lemma SplitConserves(n: Dimension, g: Board, splits: nat, s: Assignment)
    requires WellFormed(n, g) && PeerConsistent(n, g) && Splittable(g)
    ensures var e := Sorted(Split(n, g), splits);
            Completing(n, s, e.frames) + Showing(s, e.reports) == if Completes(n, s, g) then 1 else 0
  {
    SplitPartitions(n, g, s);
    SplitSound(n, g, g);
    PartsConserve(n, Split(n, g), splits, s);
  }

  lemma ExpandConserves(n: Dimension, g: Board, splits: nat, s: Assignment)
    requires WellFormed(n, g) && PeerConsistent(n, g)
    ensures var e := Expand(n, g, splits);
            Completing(n, s, e.frames) + Showing(s, e.reports) == if Completes(n, s, g) then 1 else 0
  {
    var e := Expand(n, g, splits);
    if Complete(g) {
      CompleteShows(n, g, s);
      ShowingOne(s, Report(g, splits));
    } else if Possible(g) {
      PossibleIncompleteSplittable(g);
      SplitConserves(n, g, Advance(splits, Split(n, g)), s);
    } else {
      if Completes(n, s, g) {
        CompletionMakesPossible(n, s, g);
      }
    }
  }

  /**
   No step invents or duplicates a solution, and from a start in range none loses one: each assignment completes or
   is shown by exactly as many stacked grids and reports after the step as before it.
   */
  lemma StepConserves(n: Dimension, start: Board, st: State, s: Assignment)
    requires st.frames != [] && Sound(n, start, st)
    ensures Searchable(n, st.frames)
    ensures var before, after := Counted(n, st, s), Counted(n, Step(n, st), s);
            after <= before && (InRange(n, start) ==> after == before)
  {
    var rest, top := st.frames[..|st.frames| - 1], st.frames[|st.frames| - 1];
    assert SoundGrid(n, start, top);
    if InRange(n, start) {
      RefineKeepsCompletions(n, top, s);
    } else if Completes(n, s, Refine(n, top)) {
      BelowCompletes(n, s, Refine(n, top), top);
    }
    RefineConsistent(n, top);
    var e := Expand(n, Refine(n, top), st.splits);
    ExpandConserves(n, Refine(n, top), st.splits, s);
    CompletingConcat(n, s, rest, e.frames);
    ShowingConcat(s, st.reports, e.reports);
  }
}