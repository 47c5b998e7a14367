/**
 The search told without a stack: as a recursion over grids, and turn by turn. The loop with its explicit stack refines
 the recursion, report by report and count by count.
 */
module Recursion {
  import opened Geometry
  import opened Candidates
  import opened Deduction
  import opened Search
  import opened Enumeration

  // ----- the recursion

  /** The reports found below some grids, and the count after them. */
  datatype Findings = Findings(reports: seq<Report>, splits: nat)

  function Joined(a: Findings, b: Findings): Findings {
    Findings(a.reports + b.reports, b.splits)
  }

  /**
   Explores a grid. A refined grid that is complete is reported, one that is impossible is given up. Any other is split
   at a cell, which adds the number of candidates of the cell to the count; the complete parts are reported first, and
   then the others are explored.
   */
  ghost function Tree(n: Dimension, g: Board, splits: nat): Findings
    requires WellFormed(n, g) && Possible(g)
    decreases Cost(n, [g], 1), 0
  {
    CostNonNegative(n, [g], 1);
    var r := Refine(n, g);
    if Complete(r) then Findings([Report(r, splits)], splits)
    else if !Possible(r) then Findings([], splits)
    else
      PossibleIncompleteSplittable(r);
      var count := splits + |r[SplitCell(n, r)]|;
      OpenCheaper(n, g);
      Joined(Findings(Finished(Split(n, r), count), count), Forest(n, Open(Split(n, r)), count))
  }

  /** Explores grids one after the other, the last one first. */
  ghost function Forest(n: Dimension, grids: seq<Board>, splits: nat): Findings
    requires Searchable(n, grids)
    decreases Cost(n, grids, 1), 1
  {
    CostNonNegative(n, grids, 1);
    if grids == [] then Findings([], splits)
    else
      var front, g := grids[..|grids| - 1], grids[|grids| - 1];
      FrontCheaper(n, front, g);
      var first := Tree(n, g, splits);
      Joined(first, Forest(n, front, first.splits))
  }

  lemma OpenCheaper(n: Dimension, g: Board)
    requires WellFormed(n, g) && Possible(g) && Possible(Refine(n, g)) && !Complete(Refine(n, g))
    ensures Splittable(Refine(n, g)) && Searchable(n, Open(Split(n, Refine(n, g))))
    ensures 0 <= Cost(n, Open(Split(n, Refine(n, g))), 1) < Cost(n, [g], 1)
  {
    hide Choices, Open, Refine, Split, Possible, Complete;
    var r := Refine(n, g);
    RefinedChoices(n, g);
    ExpandPossible(n, r, 0);
    ExpandCost(n, r, 0, Choices(n, g));
    CostOne(n, g, 1);
    CostNonNegative(n, Open(Split(n, r)), 1);
  }

  lemma FrontCheaper(n: Dimension, front: seq<Board>, g: Board)
    requires Searchable(n, front + [g])
    ensures WellFormed(n, g) && Possible(g) && Searchable(n, front)
    ensures Cost(n, [g], 1) <= Cost(n, front + [g], 1)
    ensures 0 <= Cost(n, front, 1) < Cost(n, front + [g], 1)
  {
    hide Choices, Possible;
    assert forall h :: h in front ==> h in front + [g];
    assert g in front + [g];
    CostConcat(n, front, [g], 1);
    CostOne(n, g, 1);
    ManyChoices(n, g);
    CostNonNegative(n, front, 1);
  }

  lemma ManyChoices(n: Dimension, g: Board)
    requires WellFormed(n, g) && Possible(g)
    ensures 1 <= Choices(n, g)
  {
    AllCellsExact(n);
    ProductPositive(g, AllCells(n));
  }

  lemma JoinedAssociative(a: Findings, b: Findings, c: Findings)
    ensures Joined(Joined(a, b), c) == Joined(a, Joined(b, c))
    ensures a.reports == [] ==> Joined(a, b) == b
    ensures Joined(a, Findings([], a.splits)) == a
  {
    assert a.reports + b.reports + c.reports == a.reports + (b.reports + c.reports);
    assert a.reports + [] == a.reports;
    assert a.reports == [] ==> a.reports + b.reports == b.reports;
  }

  lemma ForestStep(n: Dimension, front: seq<Board>, g: Board, splits: nat)
    requires Searchable(n, front + [g])
    ensures WellFormed(n, g) && Possible(g) && Searchable(n, front)
    ensures Forest(n, front + [g], splits) == Joined(Tree(n, g, splits), Forest(n, front, Tree(n, g, splits).splits))
  {
    hide Tree, Possible, Choices;
    assert (front + [g])[..|front + [g]| - 1] == front;
    assert forall h :: h in front ==> h in front + [g];
    assert g in front + [g];
  }

  lemma {:induction false} ForestConcat(n: Dimension, a: seq<Board>, b: seq<Board>, splits: nat)
    requires Searchable(n, a) && Searchable(n, b)
    ensures Searchable(n, a + b)
    ensures Forest(n, a + b, splits) == Joined(Forest(n, b, splits), Forest(n, a, Forest(n, b, splits).splits))
    decreases |b|
  {
    hide Tree, Joined, Possible, Choices;
    if b == [] {
      assert a + b == a;
      JoinedAssociative(Forest(n, b, splits), Forest(n, a, splits), Findings([], 0));
    } else {
      hide Forest;
      var front, g := b[..|b| - 1], b[|b| - 1];
      assert b == front + [g] && a + b == (a + front) + [g];
      assert forall h :: h in front ==> h in b;
      var first := Tree(n, g, splits);
      ForestStep(n, front, g, splits);
      ForestConcat(n, a, front, first.splits);
      ForestStep(n, a + front, g, splits);
      JoinedSplits(first, Forest(n, front, first.splits));
      JoinedAssociative(first, Forest(n, front, first.splits), Forest(n, a, Forest(n, front, first.splits).splits));
    }
  }

  lemma JoinedSplits(a: Findings, b: Findings)
    ensures Joined(a, b).splits == b.splits
  {
  }

  /** What a grid yields is what one turn of the loop reports of it, and then what the stacked parts yield. */
  lemma TreeExpands(n: Dimension, g: Board, splits: nat)
    requires WellFormed(n, g) && Possible(g)
    ensures var e := Expand(n, Refine(n, g), splits);
            Tree(n, g, splits) == Joined(Findings(e.reports, e.splits), Forest(n, e.frames, e.splits))
  {
    hide Refine, Possible, Complete, Choices, Open, Finished, Split, Expand;
    var r := Refine(n, g);
    CostNonNegative(n, [g], 1);
    if Complete(r) {
      ExpandComplete(n, r, splits);
    } else if Possible(r) {
      ExpandPossible(n, r, splits);
      SplitCount(n, r);
    } else {
      ExpandImpossible(n, r, splits);
    }
  }

  lemma SplitCount(n: Dimension, g: Board)
    requires WellFormed(n, g) && Splittable(g)
    ensures |Split(n, g)| == |g[SplitCell(n, g)]| >= 2
  {
  }

  /** A run of the loop from any stack reports what the recursion finds, with the same counts. */
  lemma {:induction false} RunIsForest(n: Dimension, frames: seq<Board>, splits: nat)
    requires Searchable(n, frames)
    ensures Run(n, State(frames, splits, [])).reports == Forest(n, frames, splits).reports
    ensures Run(n, State(frames, splits, [])).splits == Forest(n, frames, splits).splits
    decreases Cost(n, frames, 1)
  {
    hide Run, Step, Tree, Joined, Expand, Refine, Choices, Possible, Cost;
    CostNonNegative(n, frames, 1);
    if frames == [] {
      RunEmpty(n, State(frames, splits, []));
    } else {
      hide Forest;
      var front, g := frames[..|frames| - 1], frames[|frames| - 1];
      assert frames == front + [g];
      assert forall h :: h in front ==> h in frames;
      var st, e := State(frames, splits, []), Expand(n, Refine(n, g), splits);
      StepOfTop(n, front, g, splits);
      RunIsForest(n, front + e.frames, e.splits);
      RunAfterTurn(n, front, g, splits);
      ForestConcat(n, front, e.frames, e.splits);
      ForestStep(n, front, g, splits);
      TreeExpands(n, g, splits);
      var found, rest := Findings(e.reports, e.splits), Forest(n, e.frames, e.splits);
      JoinedAssociative(found, rest, Forest(n, front, rest.splits));
      JoinedParts(found, Forest(n, front + e.frames, e.splits));
      JoinedSplits(found, rest);
    }
  }

  lemma JoinedParts(a: Findings, b: Findings)
    ensures Joined(a, b).reports == a.reports + b.reports && Joined(a, b).splits == b.splits
  {
  }

  lemma StepOfTop(n: Dimension, front: seq<Board>, g: Board, splits: nat)
    requires Searchable(n, front + [g])
    ensures WellFormed(n, g) && Searchable(n, front)
    ensures var e, st := Expand(n, Refine(n, g), splits), State(front + [g], splits, []);
            && Step(n, st) == State(front + e.frames, e.splits, e.reports) && Searchable(n, front + e.frames)
            && 0 <= Cost(n, front + e.frames, 1) < Cost(n, front + [g], 1)
  {
    hide Expand, Refine, Choices, Possible, Cost;
    var st := State(front + [g], splits, []);
    assert (front + [g])[..|front + [g]| - 1] == front;
    assert forall h :: h in front ==> h in front + [g];
    assert g in front + [g];
    StepCost(n, st);
  }

  lemma RunAfterTurn(n: Dimension, front: seq<Board>, g: Board, splits: nat)
    requires Searchable(n, front + [g])
    ensures WellFormed(n, g) && Searchable(n, front)
    ensures var e := Expand(n, Refine(n, g), splits);
            && Searchable(n, front + e.frames)
            && Run(n, State(front + [g], splits, [])).reports
               == e.reports + Run(n, State(front + e.frames, e.splits, [])).reports
            && Run(n, State(front + [g], splits, [])).splits == Run(n, State(front + e.frames, e.splits, [])).splits
  {
    hide Run, Step, Expand, Refine, Choices, Possible, Cost, Searchable;
    StepOfTop(n, front, g, splits);
    var e := Expand(n, Refine(n, g), splits);
    RunUnfold(n, State(front + [g], splits, []));
    RunReports(n, front + e.frames, e.splits, e.reports);
    assert front + [g] != [];
  }

  /** The search reports exactly what the recursion from the start grid finds. */
  lemma SearchIsTree(n: Dimension, g: Board)
    requires WellFormed(n, g)
    ensures Reports(n, g) == if Possible(g) then Tree(n, g, 0).reports else []
  {
    hide Run, Tree, Choices, Possible, Cost;
    if Possible(g) {
      RunIsForest(n, [g], 0);
      OneTree(n, g);
    }
  }

  lemma OneTree(n: Dimension, g: Board)
    requires WellFormed(n, g) && Possible(g)
    ensures Searchable(n, [g]) && Forest(n, [g], 0).reports == Tree(n, g, 0).reports
  {
    hide Tree, Choices;
    assert [g][..0] == [];
    ForestStep(n, [], g, 0);
    assert [] + [g] == [g];
  }

  // ----- turn by turn

  /** The state after a number of turns, or after the last one. */
  ghost function Turns(n: Dimension, st: State, k: nat): (t: State)
    requires Searchable(n, st.frames)
    ensures Searchable(n, t.frames)
  {
    if k == 0 then st
    else
      var t := Turns(n, st, k - 1);
      if t.frames == [] then t else Step(n, t)
  }

  /** The number of candidates of the cell at which a refined grid is split; none if it is complete or impossible. */
  ghost function SplitSize(n: Dimension, g: Board): nat
    requires WellFormed(n, g)
  {
    if Possible(g) && !Complete(g) then PossibleIncompleteSplittable(g); |g[SplitCell(n, g)]| else 0
  }

  lemma SplitSizeExact(n: Dimension, g: Board, c: Cell)
    requires WellFormed(n, g)
    ensures Possible(g) && !Complete(g) && IsSplitCell(g, c) ==> SplitSize(n, g) == |g[c]|
    ensures Complete(g) || !Possible(g) ==> SplitSize(n, g) == 0
  {
    hide Possible, Complete;
    if IsSplitCell(g, c) {
      SplitCellUnique(n, g, c);
    }
  }

  /** The sum of those numbers over the grids inspected in the first k turns. */
  ghost function SizesBefore(n: Dimension, st: State, k: nat): nat
    requires Searchable(n, st.frames)
  {
    if k == 0 then 0
    else
      var t := Turns(n, st, k - 1);
      SizesBefore(n, st, k - 1) + if t.frames == [] then 0 else SplitSize(n, Refine(n, t.frames[|t.frames| - 1]))
  }

  lemma TurnAdds(n: Dimension, t: State)
    requires Searchable(n, t.frames) && t.frames != []
    ensures Step(n, t).splits == t.splits + SplitSize(n, Refine(n, t.frames[|t.frames| - 1]))
    ensures t.reports <= Step(n, t).reports
    ensures forall j :: |t.reports| <= j < |Step(n, t).reports| ==> Step(n, t).reports[j].splits == Step(n, t).splits
  {
    hide Refine, Possible, Complete, Split;
    var g := Refine(n, t.frames[|t.frames| - 1]);
    ExpandReports(n, g, t.splits);
    if Complete(g) {
      ExpandComplete(n, g, t.splits);
    } else if Possible(g) {
      ExpandPossible(n, g, t.splits);
      SplitCount(n, g);
    } else {
      ExpandImpossible(n, g, t.splits);
    }
    var e := Expand(n, g, t.splits);
    forall j | |t.reports| <= j < |Step(n, t).reports|
      ensures Step(n, t).reports[j].splits == e.splits
    {
      assert Step(n, t).reports[j] == e.reports[j - |t.reports|];
      assert e.reports[j - |t.reports|] in e.reports;
    }
  }

  /** The count after some turns is the sum of the sizes of the splits made in them. */
  lemma {:induction false} TurnsCount(n: Dimension, st: State, k: nat)
    requires Searchable(n, st.frames)
    ensures Turns(n, st, k).splits == st.splits + SizesBefore(n, st, k)
    ensures st.reports <= Turns(n, st, k).reports
    decreases k
  {
    hide Refine, Step, SplitSize, Searchable;
    if k > 0 {
      TurnsCount(n, st, k - 1);
      var t := Turns(n, st, k - 1);
      if t.frames != [] {
        TurnAdds(n, t);
      }
    }
  }

  /** Which turn a report was made in, and the count it carries. */
  lemma {:induction false} ReportMade(n: Dimension, st: State, k: nat, j: nat) returns (i: nat)
    requires Searchable(n, st.frames) && |st.reports| <= j < |Turns(n, st, k).reports|
    ensures i < k && |Turns(n, st, i).reports| <= j < |Turns(n, st, i + 1).reports|
    ensures Turns(n, st, k).reports[j].splits == st.splits + SizesBefore(n, st, i + 1)
    decreases k
  {
    hide Refine, Step, SplitSize, Searchable, SizesBefore;
    assert k > 0;
    var t := Turns(n, st, k - 1);
    if t.frames != [] {
      TurnAdds(n, t);
    }
    if j < |t.reports| {
      i := ReportMade(n, st, k - 1, j);
    } else {
      i := k - 1;
      TurnsCount(n, st, k);
    }
  }

  lemma {:induction false} RunIsTurns(n: Dimension, st: State) returns (k: nat)
    requires Searchable(n, st.frames)
    ensures Run(n, st) == Turns(n, st, k)
    decreases Cost(n, st.frames, 1)
  {
    hide Run, Step, Cost, Searchable;
    CostNonNegative(n, st.frames, 1);
    if st.frames == [] {
      RunEmpty(n, st);
      k := 0;
    } else {
      StepCost(n, st);
      RunUnfold(n, st);
      k := RunIsTurns(n, Step(n, st));
      TurnsAfterStep(n, st, k);
      k := k + 1;
    }
  }

  lemma {:induction false} TurnsAfterStep(n: Dimension, st: State, k: nat)
    requires Searchable(n, st.frames) && st.frames != []
    ensures Searchable(n, Step(n, st).frames) && Turns(n, Step(n, st), k) == Turns(n, st, k + 1)
    decreases k
  {
    hide Step;
    if k > 0 {
      TurnsAfterStep(n, st, k - 1);
    } else {
      assert Turns(n, st, 0) == st;
    }
  }

  /** The count of each report is the sum of the sizes of all splits made up to the turn the report is made in. */
  lemma ReportCount(n: Dimension, g: Board, j: nat) returns (i: nat)
    requires WellFormed(n, g) && Possible(g) && j < |Reports(n, g)|
    ensures var st := State([g], 0, []);
            && |Turns(n, st, i).reports| <= j < |Turns(n, st, i + 1).reports|
            && Reports(n, g)[j].splits == SizesBefore(n, st, i + 1)
  {
    hide Run, Turns, SizesBefore;
    var st := State([g], 0, []);
    var k := RunIsTurns(n, st);
    i := ReportMade(n, st, k, j);
  }
}
