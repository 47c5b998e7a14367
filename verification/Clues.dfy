/**
 Placing a list of clues one after the other. Placement overwrites a cell even when propagation has already
 taken the value away from it, so nothing here assumes that the clues agree with one another.
 */
module Clues {
  import opened Geometry
  import opened Candidates
  import opened Propagation

  datatype Clue = Clue(cell: Cell, value: Value)

  predicate CluesIn(n: Dimension, clues: seq<Clue>) {
    forall i :: 0 <= i < |clues| ==> InGrid(n, clues[i].cell)
  }

  /** No cell is given two clues. */
  predicate OnePerCell(clues: seq<Clue>) {
    forall i, j :: 0 <= i < j < |clues| ==> clues[i].cell != clues[j].cell
  }

  function PlaceAll(n: Dimension, g: Board, clues: seq<Clue>): (r: Board)
    requires WellFormed(n, g) && CluesIn(n, clues)
    ensures WellFormed(n, r)
    decreases |clues|
  {
    if clues == [] then g
    else
      var last := clues[|clues| - 1];
      Place(n, PlaceAll(n, g, clues[..|clues| - 1]), last.cell, last.value)
  }

  lemma PlaceAllAppend(n: Dimension, g: Board, clues: seq<Clue>, x: Clue)
    requires WellFormed(n, g) && CluesIn(n, clues) && InGrid(n, x.cell)
    ensures CluesIn(n, clues + [x])
    ensures PlaceAll(n, g, clues + [x]) == Place(n, PlaceAll(n, g, clues), x.cell, x.value)
  {
    assert (clues + [x])[..|clues|] == clues;
  }

  lemma FrontOfClues(n: Dimension, clues: seq<Clue>)
    requires CluesIn(n, clues) && OnePerCell(clues) && clues != []
    ensures CluesIn(n, clues[..|clues| - 1]) && OnePerCell(clues[..|clues| - 1])
    ensures forall i :: 0 <= i < |clues| - 1 ==> clues[..|clues| - 1][i] == clues[i]
  {
  }

  predicate MeetsClues(k: Board, clues: seq<Clue>) {
    forall x :: x in clues ==> x.cell in k && k[x.cell] == {x.value}
  }

  predicate CluesAreCandidates(g: Board, clues: seq<Clue>) {
    forall x :: x in clues ==> x.cell in g && x.value in g[x.cell]
  }

  lemma {:induction false} PlaceAllConsistent(n: Dimension, g: Board, clues: seq<Clue>)
    requires WellFormed(n, g) && CluesIn(n, clues) && PeerConsistent(n, g)
    ensures PeerConsistent(n, PlaceAll(n, g, clues))
    decreases |clues|
  {
    if clues != [] {
      var last := clues[|clues| - 1];
      PlaceAllConsistent(n, g, clues[..|clues| - 1]);
      PlaceConsistent(n, PlaceAll(n, g, clues[..|clues| - 1]), last.cell, last.value);
    }
  }

  /** Whatever settled grid meets the clues survives all of their placements. */
  lemma {:induction false} PlaceAllKeepsSettled(n: Dimension, k: Board, g: Board, clues: seq<Clue>)
    requires WellFormed(n, g) && CluesIn(n, clues) && Settled(n, k) && Below(k, g) && MeetsClues(k, clues)
    ensures Below(k, PlaceAll(n, g, clues))
    decreases |clues|
  {
    if clues != [] {
      var last := clues[|clues| - 1];
      assert last in clues;
      PlaceAllKeepsSettled(n, k, g, clues[..|clues| - 1]);
      PlaceKeepsSettled(n, k, PlaceAll(n, g, clues[..|clues| - 1]), last.cell, last.value);
    }
  }

  lemma {:induction false} OtherCellBound(n: Dimension, g: Board, clues: seq<Clue>, c: Cell)
    requires WellFormed(n, g) && CluesIn(n, clues) && c in g
    requires forall i :: 0 <= i < |clues| ==> clues[i].cell != c
    ensures PlaceAll(n, g, clues)[c] <= g[c]
    decreases |clues|
  {
    if clues != [] {
      OtherCellBound(n, g, clues[..|clues| - 1], c);
    }
  }

  lemma {:induction false} ClueCellBound(n: Dimension, g: Board, clues: seq<Clue>, i: nat)
    requires WellFormed(n, g) && CluesIn(n, clues) && OnePerCell(clues) && i < |clues|
    ensures PlaceAll(n, g, clues)[clues[i].cell] <= {clues[i].value}
    decreases |clues|
  {
    if i < |clues| - 1 {
      FrontOfClues(n, clues);
      ClueCellBound(n, g, clues[..|clues| - 1], i);
    }
  }

  /** Each clue's cell ends up with at most the clue, every other cell with at most what it had. */
  lemma PlaceAllBounds(n: Dimension, g: Board, clues: seq<Clue>)
    requires WellFormed(n, g) && CluesIn(n, clues) && OnePerCell(clues)
    ensures forall x :: x in clues ==> PlaceAll(n, g, clues)[x.cell] <= {x.value}
    ensures forall c :: c in g && (forall x :: x in clues ==> x.cell != c) ==> PlaceAll(n, g, clues)[c] <= g[c]
  {
    forall x | x in clues
      ensures x.cell in PlaceAll(n, g, clues) && PlaceAll(n, g, clues)[x.cell] <= {x.value}
    {
      var i :| 0 <= i < |clues| && clues[i] == x;
      ClueCellBound(n, g, clues, i);
    }
    forall c | c in g && forall x :: x in clues ==> x.cell != c
      ensures PlaceAll(n, g, clues)[c] <= g[c]
    {
      OtherCellBound(n, g, clues, c);
    }
  }

  /** A possible result is settled, has each clue alone in its cell, and elsewhere nothing the start had not. */
  lemma PossibleResultMeetsClues(n: Dimension, g: Board, clues: seq<Clue>)
    requires WellFormed(n, g) && PeerConsistent(n, g) && CluesIn(n, clues) && OnePerCell(clues)
    requires Possible(PlaceAll(n, g, clues))
    ensures Settled(n, PlaceAll(n, g, clues)) && MeetsClues(PlaceAll(n, g, clues), clues)
  {
    var r := PlaceAll(n, g, clues);
    PlaceAllConsistent(n, g, clues);
    forall x | x in clues
      ensures x.cell in r && r[x.cell] == {x.value}
    {
      var i :| 0 <= i < |clues| && clues[i] == x;
      ClueCellBound(n, g, clues, i);
      SubsetOfSingleton(r[x.cell], x.value);
    }
  }

  lemma ResultBelow(n: Dimension, g: Board, clues: seq<Clue>)
    requires WellFormed(n, g) && CluesIn(n, clues) && OnePerCell(clues) && CluesAreCandidates(g, clues)
    ensures Below(PlaceAll(n, g, clues), g)
  {
    PlaceAllBounds(n, g, clues);
    var r := PlaceAll(n, g, clues);
    forall c | c in r
      ensures r[c] <= g[c]
    {
      if x :| x in clues && x.cell == c {
        assert r[c] <= {x.value};
      }
    }
  }

  lemma MetCluesAreCandidates(k: Board, g: Board, clues: seq<Clue>)
    requires Below(k, g) && MeetsClues(k, clues)
    ensures CluesAreCandidates(g, clues)
  {
    forall x | x in clues
      ensures x.cell in g && x.value in g[x.cell]
    {
      assert x.value in k[x.cell];
    }
  }

  /**
   Placing clues computes the greatest settled grid that meets them: the result lies above every settled grid
   below the start that meets the clues, and there is such a grid if and only if the result is one. For clues that
   are candidates of the start this comes down to whether the result is possible.
   */
  lemma PlaceAllGreatest(n: Dimension, g: Board, clues: seq<Clue>)
    requires WellFormed(n, g) && PeerConsistent(n, g) && CluesIn(n, clues) && OnePerCell(clues)
    ensures var r := PlaceAll(n, g, clues);
            && (forall k :: Settled(n, k) && Below(k, g) && MeetsClues(k, clues) ==> Below(k, r))
            && (Possible(r) ==> Settled(n, r) && MeetsClues(r, clues))
            && (Possible(r) && Below(r, g) <==> exists k :: Settled(n, k) && Below(k, g) && MeetsClues(k, clues))
            && (CluesAreCandidates(g, clues) ==> Below(r, g))
  {
    var r := PlaceAll(n, g, clues);
    forall k | Settled(n, k) && Below(k, g) && MeetsClues(k, clues)
      ensures Below(k, r) && Possible(r) && Below(r, g)
    {
      PlaceAllKeepsSettled(n, k, g, clues);
      PossibleAbove(k, r);
      MetCluesAreCandidates(k, g, clues);
      ResultBelow(n, g, clues);
    }
    if Possible(r) {
      PossibleResultMeetsClues(n, g, clues);
    }
    if CluesAreCandidates(g, clues) {
      ResultBelow(n, g, clues);
    }
  }

  lemma BelowBothWays(a: Board, b: Board)
    requires Below(a, b) && Below(b, a)
    ensures a == b
  {
    assert forall c :: c in a ==> a[c] == b[c];
  }

  /** Two lists of the same clues: what one makes possible, the other one does, with no fewer candidates. */
  lemma SameCluesAsStrong(n: Dimension, g: Board, xs: seq<Clue>, ys: seq<Clue>)
    requires WellFormed(n, g) && PeerConsistent(n, g)
    requires CluesIn(n, xs) && OnePerCell(xs) && CluesAreCandidates(g, xs)
    requires CluesIn(n, ys) && forall y :: y in ys ==> y in xs
    ensures Possible(PlaceAll(n, g, xs)) ==> Below(PlaceAll(n, g, xs), PlaceAll(n, g, ys))
  {
    if Possible(PlaceAll(n, g, xs)) {
      PlaceAllGreatest(n, g, xs);
      PlaceAllKeepsSettled(n, PlaceAll(n, g, xs), g, ys);
    }
  }

  /** The order of the clues decides neither whether the result is possible nor, if it is, what it is. */
  lemma PlacementOrderIrrelevant(n: Dimension, g: Board, xs: seq<Clue>, ys: seq<Clue>)
    requires WellFormed(n, g) && PeerConsistent(n, g)
    requires CluesIn(n, xs) && OnePerCell(xs) && CluesAreCandidates(g, xs)
    requires CluesIn(n, ys) && OnePerCell(ys) && forall x :: x in xs <==> x in ys
    ensures Possible(PlaceAll(n, g, xs)) <==> Possible(PlaceAll(n, g, ys))
    ensures Possible(PlaceAll(n, g, xs)) ==> PlaceAll(n, g, xs) == PlaceAll(n, g, ys)
  {
    SameCluesAsStrong(n, g, xs, ys);
    SameCluesAsStrong(n, g, ys, xs);
    var a, b := PlaceAll(n, g, xs), PlaceAll(n, g, ys);
    if Possible(a) {
      PossibleAbove(a, b);
      BelowBothWays(a, b);
    } else if Possible(b) {
      PossibleAbove(b, a);
    }
  }

  /** An assignment agrees with the clues when it has each clue's value in the clue's cell. */
  ghost predicate Agrees(s: Assignment, clues: seq<Clue>) {
    forall x :: x in clues ==> x.cell in s && s[x.cell] == x.value
  }

  lemma FreshSettled(n: Dimension)
    ensures Settled(n, Fresh(n)) && InRange(n, Fresh(n))
  {
    if 2 <= n {
      assert 2 * n <= Side(n);
    } else {
      assert forall a, b :: !Peers(n, a, b);
    }
    assert 1 in Digits(n);
  }

  // ----- clues outside 1..n*n

  /** A value that cells hold only as their sole candidate. */
  predicate OnlyAlone(g: Board, v: Value) {
    forall c :: c in g && v in g[c] ==> g[c] == {v}
  }

  lemma {:induction false} RemoveKeepsLoneValue(n: Dimension, g: Board, c: Cell, u: Value, v: Value)
    requires WellFormed(n, g) && InGrid(n, c) && OnlyAlone(g, v)
    ensures forall d :: d in g && g[d] == {v} && (u != v || d != c) ==> Remove(n, g, c, u)[d] == {v}
    decreases Pairs(g), 0, 0
  {
    if u in g[c] {
      RemovalShrinks(g, c, u);
      var h := g[c := g[c] - {u}];
      if |h[c]| == 1 {
        assert Only(h[c]) in g[c];
        RemoveRelatedKeepsLoneValue(n, h, c, Only(h[c]), v);
      }
    }
  }

  lemma {:induction false} RemoveFromAllKeepsLoneValue(n: Dimension, g: Board, cells: seq<Cell>, u: Value, v: Value)
    requires WellFormed(n, g) && (forall d :: d in cells ==> InGrid(n, d)) && OnlyAlone(g, v)
    ensures forall d :: d in g && g[d] == {v} && (u != v || d !in cells) ==> RemoveFromAll(n, g, cells, u)[d] == {v}
    decreases Pairs(g), 1, |cells|
  {
    if cells != [] {
      var h := Remove(n, g, cells[0], u);
      BelowPairs(h, g);
      RemoveKeepsLoneValue(n, g, cells[0], u, v);
      assert OnlyAlone(h, v);
      RemoveFromAllKeepsLoneValue(n, h, cells[1..], u, v);
    }
  }

  lemma {:induction false} RemoveRelatedKeepsLoneValue(n: Dimension, g: Board, c: Cell, u: Value, v: Value)
    requires WellFormed(n, g) && InGrid(n, c) && OnlyAlone(g, v)
    ensures forall d :: d in g && g[d] == {v} && (u != v || d == c) ==> RemoveRelated(n, g, c, u)[d] == {v}
    decreases Pairs(g), 2, 0
  {
    RelatedExact(n, c);
    RemoveFromAllKeepsLoneValue(n, g, Related(n, c), u, v);
  }

  lemma OutOfRangeValuesAreAlone(n: Dimension, clues: seq<Clue>, v: Value)
    requires CluesIn(n, clues) && OnePerCell(clues) && Side(n) < v
    ensures OnlyAlone(PlaceAll(n, Fresh(n), clues), v)
  {
    PlaceAllBounds(n, Fresh(n), clues);
  }

  lemma PlacedLoneValueStays(n: Dimension, g: Board, c: Cell, v: Value)
    requires WellFormed(n, g) && InGrid(n, c) && OnlyAlone(g, v)
    ensures Place(n, g, c, v)[c] == {v}
  {
    RemoveRelatedKeepsLoneValue(n, g[c := {v}], c, v, v);
  }

  lemma OtherLoneValueStays(n: Dimension, g: Board, c: Cell, u: Value, d: Cell, v: Value)
    requires WellFormed(n, g) && InGrid(n, c) && InGrid(n, d) && OnlyAlone(g, v)
    requires c != d && u != v && g[d] == {v}
    ensures Place(n, g, c, u)[d] == {v}
  {
    var h := g[c := {u}];
    assert OnlyAlone(h, v);
    RemoveRelatedKeepsLoneValue(n, h, c, u, v);
  }

  lemma LastOutOfRangeStays(n: Dimension, clues: seq<Clue>)
    requires CluesIn(n, clues) && OnePerCell(clues) && clues != []
    requires Side(n) < clues[|clues| - 1].value
    ensures PlaceAll(n, Fresh(n), clues)[clues[|clues| - 1].cell] == {clues[|clues| - 1].value}
  {
    hide Place;
    var front, last := clues[..|clues| - 1], clues[|clues| - 1];
    OutOfRangeValuesAreAlone(n, front, last.value);
    PlacedLoneValueStays(n, PlaceAll(n, Fresh(n), front), last.cell, last.value);
  }

  lemma NextPlacementKeepsOutOfRange(n: Dimension, clues: seq<Clue>, j: nat)
    requires CluesIn(n, clues) && OnePerCell(clues) && j < |clues| - 1
    requires clues[|clues| - 1].value <= Side(n) < clues[j].value
    requires CluesIn(n, clues[..|clues| - 1])
    requires PlaceAll(n, Fresh(n), clues[..|clues| - 1])[clues[j].cell] == {clues[j].value}
    ensures PlaceAll(n, Fresh(n), clues)[clues[j].cell] == {clues[j].value}
  {
    hide Place;
    var front, last := clues[..|clues| - 1], clues[|clues| - 1];
    OutOfRangeValuesAreAlone(n, front, clues[j].value);
    OtherLoneValueStays(n, PlaceAll(n, Fresh(n), front), last.cell, last.value, clues[j].cell, clues[j].value);
  }

  /** Among clues out of range there is one that stays in its cell through all later placements. */
  lemma {:induction false} OutOfRangeClueStays(n: Dimension, clues: seq<Clue>, i: nat) returns (j: nat)
    requires CluesIn(n, clues) && OnePerCell(clues) && i < |clues| && Side(n) < clues[i].value
    ensures j < |clues| && Side(n) < clues[j].value
    ensures PlaceAll(n, Fresh(n), clues)[clues[j].cell] == {clues[j].value}
    decreases |clues|
  {
    hide Place, PlaceAll;
    if Side(n) < clues[|clues| - 1].value {
      j := |clues| - 1;
      LastOutOfRangeStays(n, clues);
    } else {
      FrontOfClues(n, clues);
      j := OutOfRangeClueStays(n, clues[..|clues| - 1], i);
      NextPlacementKeepsOutOfRange(n, clues, j);
    }
  }

  lemma OutOfRangeCluesHaveNoSolution(n: Dimension, clues: seq<Clue>, i: nat, s: Assignment)
    requires CluesIn(n, clues) && OnePerCell(clues) && i < |clues| && Side(n) < clues[i].value
    requires s.Keys == CellSet(n) && forall c :: c in s ==> s[c] <= Side(n)
    ensures !Completes(n, s, PlaceAll(n, Fresh(n), clues))
  {
    var j := OutOfRangeClueStays(n, clues, i);
    assert s[clues[j].cell] !in PlaceAll(n, Fresh(n), clues)[clues[j].cell];
  }

  lemma CluesInRangeKeepRange(n: Dimension, clues: seq<Clue>)
    requires CluesIn(n, clues) && OnePerCell(clues) && forall x :: x in clues ==> x.value <= Side(n)
    ensures InRange(n, PlaceAll(n, Fresh(n), clues))
  {
    PlaceAllBounds(n, Fresh(n), clues);
    var r := PlaceAll(n, Fresh(n), clues);
    forall c, v | c in r && v in r[c]
      ensures v <= Side(n)
    {
      if x :| x in clues && x.cell == c {
        assert v in {x.value};
      } else {
        assert v in Digits(n);
      }
    }
  }

  /** The grid keeps to 1..n*n exactly when all the clues do. */
  lemma RangeKeptIffCluesInRange(n: Dimension, clues: seq<Clue>)
    requires CluesIn(n, clues) && OnePerCell(clues)
    ensures InRange(n, PlaceAll(n, Fresh(n), clues)) <==> forall x :: x in clues ==> x.value <= Side(n)
  {
    if i :| 0 <= i < |clues| && Side(n) < clues[i].value {
      var j := OutOfRangeClueStays(n, clues, i);
      assert clues[j].value in PlaceAll(n, Fresh(n), clues)[clues[j].cell];
    } else {
      CluesInRangeKeepRange(n, clues);
    }
  }

  lemma AgreeingSolutionSurvives(n: Dimension, clues: seq<Clue>, s: Assignment)
    requires CluesIn(n, clues) && s.Keys == CellSet(n) && PeersDiffer(n, s) && Agrees(s, clues)
    requires forall c :: c in s ==> s[c] <= Side(n)
    ensures Completes(n, s, PlaceAll(n, Fresh(n), clues))
  {
    ShownSettled(n, s);
    PlaceAllKeepsSettled(n, Shown(s), Fresh(n), clues);
    assert forall c :: c in s ==> s[c] in Shown(s)[c];
  }

  lemma CompletionAgrees(n: Dimension, clues: seq<Clue>, s: Assignment)
    requires CluesIn(n, clues) && OnePerCell(clues) && Completes(n, s, PlaceAll(n, Fresh(n), clues))
    ensures Agrees(s, clues)
  {
    forall x | x in clues
      ensures x.cell in s && s[x.cell] == x.value
    {
      var i :| 0 <= i < |clues| && clues[i] == x;
      ClueCellBound(n, Fresh(n), clues, i);
      assert s[x.cell] in PlaceAll(n, Fresh(n), clues)[x.cell];
    }
  }

  /** The solutions below the grid that the clues build are exactly the filled-in sudokus that agree with them. */
  lemma CluesLoseAndInventNothing(n: Dimension, clues: seq<Clue>, s: Assignment)
    requires CluesIn(n, clues) && OnePerCell(clues) && ValidSudoku(n, s)
    ensures Completes(n, s, PlaceAll(n, Fresh(n), clues)) <==> Agrees(s, clues)
  {
    if Completes(n, s, PlaceAll(n, Fresh(n), clues)) {
      CompletionAgrees(n, clues, s);
    } else if Agrees(s, clues) {
      ValidMakesPeersDiffer(n, s);
      AgreeingSolutionSurvives(n, clues, s);
    }
  }
}
