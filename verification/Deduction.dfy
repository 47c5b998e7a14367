/**
 Deducing values: a candidate that no other cell of some unit still has must be the cell's value. Refinement
 scans the grid cyclically, placing what it deduces, until a full round goes by without a deduction.
 */
module Deduction {
  import opened Geometry
  import opened Candidates
  import opened Options
  import opened Propagation

  // ----- one cell

  predicate NowhereElse(g: Board, others: seq<Cell>, v: Value) {
    forall d :: d in others && d in g ==> v !in g[d]
  }

  predicate MustBe(n: Dimension, g: Board, c: Cell, v: Value) {
    || NowhereElse(g, Without(RowCells(n, c.row), c), v)
    || NowhereElse(g, Without(ColCells(n, c.col), c), v)
    || NowhereElse(g, SectorOthers(n, c), v)
  }

  /** The deduced value is the smallest candidate that must be the value; a cell with one candidate deduces none. */
  predicate IsDeduction(n: Dimension, g: Board, c: Cell, r: Option<Value>)
    requires c in g
  {
    match r
    case Some(v) => |g[c]| != 1 && v in g[c] && MustBe(n, g, c, v)
                    && forall u :: u in g[c] && MustBe(n, g, c, u) ==> v <= u
    case None => |g[c]| == 1 || forall u :: u in g[c] ==> !MustBe(n, g, c, u)
  }

  function Deduce(n: Dimension, g: Board, c: Cell): (r: Option<Value>)
    requires c in g
    ensures IsDeduction(n, g, c, r)
  {
    var forced := set v | v in g[c] && MustBe(n, g, c, v);
    assert forall u :: u in g[c] && MustBe(n, g, c, u) ==> u in forced;
    if |g[c]| == 1 || forced == {} then None
    else Some(Least(forced))
  }

  lemma DeductionUnique(n: Dimension, g: Board, c: Cell, r: Option<Value>)
    requires c in g && IsDeduction(n, g, c, r)
    ensures r == Deduce(n, g, c)
  {
    hide MustBe;
  }

  // ----- the deduction in terms of cells

  ghost predicate InOtherRowCell(g: Board, c: Cell, v: Value) {
    exists d :: d in g && d != c && d.row == c.row && v in g[d]
  }

  ghost predicate InOtherColCell(g: Board, c: Cell, v: Value) {
    exists d :: d in g && d != c && d.col == c.col && v in g[d]
  }

  ghost predicate InOtherSectorCell(n: Dimension, g: Board, c: Cell, v: Value) {
    exists d :: d in g && d != c && SameSector(n, c, d) && v in g[d]
  }

  /** Another cell of the row, another one of the column and another one of the sector still have the value. */
  ghost predicate Elsewhere(n: Dimension, g: Board, c: Cell, v: Value) {
    InOtherRowCell(g, c, v) && InOtherColCell(g, c, v) && InOtherSectorCell(n, g, c, v)
  }

  lemma MustBeInRow(n: Dimension, g: Board, c: Cell, v: Value)
    requires WellFormed(n, g) && InGrid(n, c)
    ensures NowhereElse(g, Without(RowCells(n, c.row), c), v) <==> !InOtherRowCell(g, c, v)
  {
    hide RowCells, Side;
    RowContents(n, c.row);
    assert forall d :: d in g <==> InGrid(n, d);
  }

  lemma MustBeInCol(n: Dimension, g: Board, c: Cell, v: Value)
    requires WellFormed(n, g) && InGrid(n, c)
    ensures NowhereElse(g, Without(ColCells(n, c.col), c), v) <==> !InOtherColCell(g, c, v)
  {
    hide ColCells, Side;
    ColContents(n, c.col);
    assert forall d :: d in g <==> InGrid(n, d);
  }

  lemma MustBeInSector(n: Dimension, g: Board, c: Cell, v: Value)
    requires WellFormed(n, g) && InGrid(n, c)
    ensures NowhereElse(g, SectorOthers(n, c), v) <==> !InOtherSectorCell(n, g, c, v)
  {
    hide SectorOthers, SameSector, Side;
    SectorOthersExact(n, c);
    assert forall d :: d in g <==> InGrid(n, d);
  }

  /** A value must be the cell's value exactly if some unit of the cell has it in no other cell. */
  lemma MustBeExact(n: Dimension, g: Board, c: Cell, v: Value)
    requires WellFormed(n, g) && InGrid(n, c)
    ensures MustBe(n, g, c, v) <==> !Elsewhere(n, g, c, v)
  {
    hide NowhereElse, InOtherRowCell, InOtherColCell, InOtherSectorCell, RowCells, ColCells, SectorOthers, Without;
    MustBeInRow(n, g, c, v);
    MustBeInCol(n, g, c, v);
    MustBeInSector(n, g, c, v);
  }

  /**
   The least candidate that is missing from the rest of the row, of the column or of the sector, unless the cell is
   decided. If there is none, each candidate is still in another cell of the row, of the column and of the sector.
   */
  ghost predicate IsLeastForced(n: Dimension, g: Board, c: Cell, r: Option<Value>)
    requires c in g
  {
    match r
    case Some(v) => |g[c]| != 1 && v in g[c] && !Elsewhere(n, g, c, v)
                    && forall u :: u in g[c] && u < v ==> Elsewhere(n, g, c, u)
    case None => |g[c]| == 1 || forall v :: v in g[c] ==> Elsewhere(n, g, c, v)
  }

  lemma DeduceExact(n: Dimension, g: Board, c: Cell)
    requires WellFormed(n, g) && InGrid(n, c)
    ensures IsLeastForced(n, g, c, Deduce(n, g, c))
  {
    hide MustBe, Elsewhere, Deduce;
    forall v
      ensures MustBe(n, g, c, v) <==> !Elsewhere(n, g, c, v)
    {
      MustBeExact(n, g, c, v);
    }
  }

  /** The first of the values that must be the cell's value. */
  function FirstForced(n: Dimension, g: Board, c: Cell, values: seq<Value>): (r: Option<Value>)
    ensures match r
            case Some(v) => v in values && MustBe(n, g, c, v)
            case None => forall v :: v in values ==> !MustBe(n, g, c, v)
    decreases |values|
  {
    if values == [] then None
    else if MustBe(n, g, c, values[0]) then Some(values[0])
    else FirstForced(n, g, c, values[1..])
  }

  lemma FirstForcedStep(n: Dimension, g: Board, c: Cell, values: seq<Value>, i: nat)
    requires i < |values|
    ensures FirstForced(n, g, c, values[i..])
            == if MustBe(n, g, c, values[i]) then Some(values[i]) else FirstForced(n, g, c, values[i + 1..])
  {
    assert values[i..][1..] == values[i + 1..];
  }

  lemma {:induction false} FirstForcedIsLeast(n: Dimension, g: Board, c: Cell, values: seq<Value>, u: Value)
    requires StrictlyAscending(values) && u in values && MustBe(n, g, c, u)
    ensures FirstForced(n, g, c, values).Some? && FirstForced(n, g, c, values).value <= u
    decreases |values|
  {
    if !MustBe(n, g, c, values[0]) {
      FirstForcedIsLeast(n, g, c, values[1..], u);
    }
  }

  /** Looking through the candidates in ascending order finds the deduction. */
  lemma FirstForcedIsDeduction(n: Dimension, g: Board, c: Cell, values: seq<Value>)
    requires c in g && |g[c]| != 1 && StrictlyAscending(values) && forall v :: v in values <==> v in g[c]
    ensures FirstForced(n, g, c, values) == Deduce(n, g, c)
  {
    var r := FirstForced(n, g, c, values);
    forall u | r.Some? && u in g[c] && MustBe(n, g, c, u)
      ensures r.value <= u
    {
      FirstForcedIsLeast(n, g, c, values, u);
    }
    DeductionUnique(n, g, c, r);
  }

  lemma ForcedInUnit(n: Dimension, g: Board, c: Cell, v: Value, s: Assignment, unit: seq<Cell>)
    requires WellFormed(n, g) && InRange(n, g) && Completes(n, s, g) && v <= Side(n)
    requires IsUnit(n, unit) && c in unit && NowhereElse(g, Without(unit, c), v)
    ensures s[c] == v
  {
    PeerFreeUnit(n, s, unit);
    assert v in Digits(n);
    var d :| d in unit && s[d] == v;
    assert v in g[d];
  }

  /** A deduced value is the cell's value in every completion. */
  lemma DeductionForced(n: Dimension, g: Board, c: Cell, v: Value, s: Assignment)
    requires WellFormed(n, g) && InRange(n, g) && InGrid(n, c) && Completes(n, s, g)
    requires v in g[c] && MustBe(n, g, c, v)
    ensures s[c] == v
  {
    if NowhereElse(g, Without(RowCells(n, c.row), c), v) {
      RowContents(n, c.row);
      RowIsUnit(n, c.row);
      ForcedInUnit(n, g, c, v, s, RowCells(n, c.row));
    } else if NowhereElse(g, Without(ColCells(n, c.col), c), v) {
      ColContents(n, c.col);
      ColIsUnit(n, c.col);
      ForcedInUnit(n, g, c, v, s, ColCells(n, c.col));
    } else {
      SectorIndexBound(n, c);
      SectorIsUnit(n, SectorOf(n, c.col), SectorOf(n, c.row));
      SectorCellOf(n, c);
      ForcedInUnit(n, g, c, v, s, SectorCells(n, SectorOf(n, c.col), SectorOf(n, c.row)));
    }
  }

  // ----- the cyclic scan

  /** The next cell to the right, then at the start of the next row, then back at the top left. */
  function Next(n: Dimension, c: Cell): Cell {
    if c.col + 1 < Side(n) then Cell(c.col + 1, c.row)
    else if c.row + 1 < Side(n) then Cell(0, c.row + 1)
    else Cell(0, 0)
  }

  /** How many steps of the scan lead from one cell to another. */
  function Distance(n: Dimension, c: Cell, t: Cell): (d: nat)
    requires InGrid(n, c)
    ensures InGrid(n, t) ==> d < Side(n) * Side(n)
  {
    PositionInverse(n, c);
    if InGrid(n, t) then PositionInverse(n, t);
      if Position(n, c) <= Position(n, t) then Position(n, t) - Position(n, c)
      else Side(n) * Side(n) + Position(n, t) - Position(n, c)
    else 0
  }

  lemma NextPosition(n: Dimension, c: Cell)
    requires InGrid(n, c)
    ensures InGrid(n, Next(n, c))
    ensures Position(n, Next(n, c)) == if Position(n, c) + 1 == Side(n) * Side(n) then 0 else Position(n, c) + 1
  {
    PositionInverse(n, c);
    if c.col + 1 == Side(n) {
      assert Position(n, c) + 1 == (c.row + 1) * Side(n);
      MultipleGap(Side(n), Side(n) - (c.row + 1));
      assert Side(n) * (Side(n) - (c.row + 1)) == Side(n) * Side(n) - (c.row + 1) * Side(n);
    } else {
      LinearBound(c.row, c.col + 1, Side(n), Side(n));
    }
  }

  /** Moving on brings the scan one step closer to every cell but the one it leaves. */
  lemma NextDistance(n: Dimension, c: Cell, t: Cell)
    requires InGrid(n, c) && InGrid(n, t)
    ensures InGrid(n, Next(n, c))
    ensures Distance(n, Next(n, c), t) == if c == t then Side(n) * Side(n) - 1 else Distance(n, c, t) - 1
  {
    NextPosition(n, c);
    PositionInverse(n, c);
    PositionInverse(n, t);
  }

  lemma DistanceZero(n: Dimension, c: Cell, t: Cell)
    requires InGrid(n, c) && InGrid(n, t)
    ensures Distance(n, c, t) == 0 <==> c == t
  {
    PositionInverse(n, c);
    PositionInverse(n, t);
  }

  /** Scan steps left until the stop marker is met; before there is a marker, one round and a step. */
  function ScanLeft(n: Dimension, c: Cell, target: Option<Cell>): nat
    requires InGrid(n, c)
  {
    match target
    case None => Side(n) * Side(n)
    case Some(t) => Distance(n, c, t)
  }

  /** The scan from a cell with a given stop marker, up to where the source's loop ends. */
  function Scan(n: Dimension, g: Board, c: Cell, target: Option<Cell>): (r: Board)
    requires WellFormed(n, g) && InGrid(n, c)
    requires target.Some? ==> InGrid(n, target.value)
    ensures Below(r, g)
    decreases Pairs(g), ScanLeft(n, c, target)
  {
    if target == Some(c) then g
    else
      NextDistance(n, c, c);
      match Deduce(n, g, c)
      case Some(v) =>
        var h := Place(n, g, c, v);
        DeducedPlaceShrinks(n, g, c, v);
        if Possible(h) then Scan(n, h, Next(n, c), Some(c)) else h
      case None =>
        if target.None? then Scan(n, g, Next(n, c), Some(c))
        else
          NextDistance(n, c, target.value);
          DistanceZero(n, c, target.value);
          Scan(n, g, Next(n, c), target)
  }

  lemma DeducedPlaceShrinks(n: Dimension, g: Board, c: Cell, v: Value)
    requires WellFormed(n, g) && InGrid(n, c) && Deduce(n, g, c) == Some(v)
    ensures Below(Place(n, g, c, v), g)
    ensures Pairs(Place(n, g, c, v)) < Pairs(g)
  {
    ChoiceShrinks(g, c, v);
    BelowPairs(Place(n, g, c, v), g[c := {v}]);
  }

  /** One step of the scan. */
  lemma ScanStep(n: Dimension, g: Board, c: Cell, target: Option<Cell>)
    requires WellFormed(n, g) && InGrid(n, c) && target != Some(c)
    requires target.Some? ==> InGrid(n, target.value)
    ensures InGrid(n, Next(n, c))
    ensures Deduce(n, g, c).Some? ==>
      var h := Place(n, g, c, Deduce(n, g, c).value);
      && Pairs(h) < Pairs(g)
      && Scan(n, g, c, target) == if Possible(h) then Scan(n, h, Next(n, c), Some(c)) else h
    ensures Deduce(n, g, c).None? ==>
      var t := if target.None? then Some(c) else target;
      && ScanLeft(n, Next(n, c), t) < ScanLeft(n, c, target)
      && Scan(n, g, c, target) == Scan(n, g, Next(n, c), t)
  {
    NextDistance(n, c, c);
    if target.Some? {
      NextDistance(n, c, target.value);
      DistanceZero(n, c, target.value);
    }
    if Deduce(n, g, c).Some? {
      DeducedPlaceShrinks(n, g, c, Deduce(n, g, c).value);
    }
  }

  /** The scan ends where it meets the marker. */
  lemma ScanStop(n: Dimension, g: Board, c: Cell)
    requires WellFormed(n, g) && InGrid(n, c)
    ensures Scan(n, g, c, Some(c)) == g
  {
  }

  function Refine(n: Dimension, g: Board): (r: Board)
    requires WellFormed(n, g)
    ensures WellFormed(n, r) && Below(r, g)
  {
    Scan(n, g, Cell(0, 0), None)
  }

  /** The cells the scan has passed since its marker was set, the marked cell included. */
  predicate PassedOver(n: Dimension, g: Board, c: Cell, target: Cell)
    requires WellFormed(n, g) && InGrid(n, c) && InGrid(n, target)
  {
    forall d :: d in g && Distance(n, c, target) <= Distance(n, c, d) ==> Deduce(n, g, d) == None
  }

  predicate NothingToDeduce(n: Dimension, g: Board)
  {
    forall c :: c in g ==> Deduce(n, g, c) == None
  }

  lemma {:induction false} ScanReachesFixpoint(n: Dimension, g: Board, c: Cell, target: Option<Cell>)
    requires WellFormed(n, g) && InGrid(n, c)
    requires target.Some? ==> InGrid(n, target.value) && PassedOver(n, g, c, target.value)
    ensures var r := Scan(n, g, c, target); !Possible(r) || NothingToDeduce(n, r)
    decreases Pairs(g), ScanLeft(n, c, target)
  {
    hide Place, Distance, IsDeduction;
    if target == Some(c) {
      DistanceZero(n, c, c);
    } else {
      forall d | InGrid(n, d)
        ensures InGrid(n, Next(n, c))
        ensures Distance(n, Next(n, c), d) == if c == d then Side(n) * Side(n) - 1 else Distance(n, c, d) - 1
      {
        NextDistance(n, c, d);
      }
      match Deduce(n, g, c)
      case Some(v) =>
        var h := Place(n, g, c, v);
        DeducedPlaceShrinks(n, g, c, v);
        if Possible(h) {
          SubsetOfSingleton(h[c], v);
          ScanReachesFixpoint(n, h, Next(n, c), Some(c));
        }
      case None =>
        if target.None? {
          ScanReachesFixpoint(n, g, Next(n, c), Some(c));
        } else {
          DistanceZero(n, c, target.value);
          ScanReachesFixpoint(n, g, Next(n, c), target);
        }
    }
  }

  /** Refinement stops at an impossible grid or where no cell, not even the marked one, has a deduction left. */
  lemma RefineReachesFixpoint(n: Dimension, g: Board)
    requires WellFormed(n, g)
    ensures !Possible(Refine(n, g)) || NothingToDeduce(n, Refine(n, g))
  {
    ScanReachesFixpoint(n, g, Cell(0, 0), None);
  }

  /** So in a possible refined grid each unit of an undecided cell has each of its candidates in another cell too. */
  lemma RefinedExact(n: Dimension, g: Board, c: Cell, v: Value)
    requires WellFormed(n, g) && Possible(Refine(n, g)) && InGrid(n, c)
    requires |Refine(n, g)[c]| != 1 && v in Refine(n, g)[c]
    ensures Elsewhere(n, Refine(n, g), c, v)
  {
    hide Refine, Elsewhere, Possible, Deduce;
    RefineReachesFixpoint(n, g);
    DeduceExact(n, Refine(n, g), c);
  }

  lemma {:induction false} ScanKeepsCompletions(n: Dimension, g: Board, c: Cell, target: Option<Cell>, s: Assignment)
    requires WellFormed(n, g) && InRange(n, g) && InGrid(n, c)
    requires target.Some? ==> InGrid(n, target.value)
    ensures Completes(n, s, g) ==> Completes(n, s, Scan(n, g, c, target))
    decreases Pairs(g), ScanLeft(n, c, target)
  {
    if target != Some(c) && Completes(n, s, g) {
      NextDistance(n, c, c);
      match Deduce(n, g, c)
      case Some(v) =>
        DeducedPlaceShrinks(n, g, c, v);
        DeductionForced(n, g, c, v, s);
        PlaceSelectsCompletions(n, g, c, v, s);
        if Possible(Place(n, g, c, v)) {
          ScanKeepsCompletions(n, Place(n, g, c, v), Next(n, c), Some(c), s);
        }
      case None =>
        if target.None? {
          ScanKeepsCompletions(n, g, Next(n, c), Some(c), s);
        } else {
          NextDistance(n, c, target.value);
          DistanceZero(n, c, target.value);
          ScanKeepsCompletions(n, g, Next(n, c), target, s);
        }
    }
  }

  /** Refinement keeps the completions exactly. */
  lemma RefineKeepsCompletions(n: Dimension, g: Board, s: Assignment)
    requires WellFormed(n, g) && InRange(n, g)
    ensures Completes(n, s, Refine(n, g)) <==> Completes(n, s, g)
  {
    ScanKeepsCompletions(n, g, Cell(0, 0), None, s);
    if Completes(n, s, Refine(n, g)) {
      BelowCompletes(n, s, Refine(n, g), g);
    }
  }

  lemma {:induction false} ScanConsistent(n: Dimension, g: Board, c: Cell, target: Option<Cell>)
    requires WellFormed(n, g) && PeerConsistent(n, g) && InGrid(n, c)
    requires target.Some? ==> InGrid(n, target.value)
    ensures PeerConsistent(n, Scan(n, g, c, target))
    decreases Pairs(g), ScanLeft(n, c, target)
  {
    if target != Some(c) {
      NextDistance(n, c, c);
      match Deduce(n, g, c)
      case Some(v) =>
        DeducedPlaceShrinks(n, g, c, v);
        PlaceConsistent(n, g, c, v);
        if Possible(Place(n, g, c, v)) {
          ScanConsistent(n, Place(n, g, c, v), Next(n, c), Some(c));
        }
      case None =>
        if target.None? {
          ScanConsistent(n, g, Next(n, c), Some(c));
        } else {
          NextDistance(n, c, target.value);
          DistanceZero(n, c, target.value);
          ScanConsistent(n, g, Next(n, c), target);
        }
    }
  }

  lemma RefineConsistent(n: Dimension, g: Board)
    requires WellFormed(n, g) && PeerConsistent(n, g)
    ensures PeerConsistent(n, Refine(n, g))
  {
    ScanConsistent(n, g, Cell(0, 0), None);
  }

  // ----- refinement gives the greatest grid of its kind

  /** Some cell of the unit still has the value. */
  ghost predicate Somewhere(g: Board, unit: seq<Cell>, v: Value) {
    exists c :: c in unit && c in g && v in g[c]
  }

  /** Every row, column and sector still has every value somewhere. */
  ghost predicate UnitsCover(n: Dimension, g: Board) {
    forall c, v :: InGrid(n, c) && v in Digits(n) ==>
      && Somewhere(g, RowCells(n, c.row), v)
      && Somewhere(g, ColCells(n, c.col), v)
      && Somewhere(g, SectorCells(n, SectorOf(n, c.col), SectorOf(n, c.row)), v)
  }

  /** A settled grid in which every unit has every value somewhere and nothing is left to deduce. */
  ghost predicate Deduced(n: Dimension, k: Board) {
    Settled(n, k) && UnitsCover(n, k) && NothingToDeduce(n, k)
  }

  lemma OnlyPlace(g: Board, k: Board, unit: seq<Cell>, c: Cell, v: Value)
    requires Below(k, g) && Somewhere(k, unit, v) && NowhereElse(g, Without(unit, c), v)
    ensures NowhereElse(k, Without(unit, c), v) && c in k && v in k[c]
  {
    var d :| d in unit && d in k && v in k[d];
    assert d != c ==> d in Without(unit, c);
  }

  lemma MustBeBelow(n: Dimension, k: Board, g: Board, c: Cell, v: Value)
    requires UnitsCover(n, k) && Below(k, g) && InGrid(n, c) && v in Digits(n) && MustBe(n, g, c, v)
    ensures c in k && v in k[c] && MustBe(n, k, c, v)
  {
    hide NowhereElse, Somewhere, RowCells, ColCells, SectorCells, SectorOf, Without, InGrid;
    if NowhereElse(g, Without(RowCells(n, c.row), c), v) {
      OnlyPlace(g, k, RowCells(n, c.row), c, v);
    } else if NowhereElse(g, Without(ColCells(n, c.col), c), v) {
      OnlyPlace(g, k, ColCells(n, c.col), c, v);
    } else {
      OnlyPlace(g, k, SectorCells(n, SectorOf(n, c.col), SectorOf(n, c.row)), c, v);
    }
  }

  /** What is deduced in a grid is already decided in every such grid below it. */
  lemma DeductionDecided(n: Dimension, k: Board, g: Board, c: Cell, v: Value)
    requires Deduced(n, k) && Below(k, g) && InRange(n, g) && InGrid(n, c)
    requires v in g[c] && MustBe(n, g, c, v)
    ensures k[c] == {v}
  {
    hide PeerConsistent, Side, MustBe, UnitsCover;
    assert v in Digits(n);
    MustBeBelow(n, k, g, c, v);
    assert Deduce(n, k, c) == None;
    SingletonHasOne(k[c]);
  }

  lemma {:induction false} ScanKeepsDeduced(n: Dimension, k: Board, g: Board, c: Cell, target: Option<Cell>)
    requires WellFormed(n, g) && InRange(n, g) && Deduced(n, k) && Below(k, g) && InGrid(n, c)
    requires target.Some? ==> InGrid(n, target.value)
    ensures Below(k, Scan(n, g, c, target))
    decreases Pairs(g), ScanLeft(n, c, target)
  {
    hide PeerConsistent, MustBe, Place;
    if target != Some(c) {
      ScanStep(n, g, c, target);
      if Deduce(n, g, c).Some? {
        var v := Deduce(n, g, c).value;
        DeducedPlaceShrinks(n, g, c, v);
        DeductionDecided(n, k, g, c, v);
        PlaceKeepsSettled(n, k, g, c, v);
        if Possible(Place(n, g, c, v)) {
          ScanKeepsDeduced(n, k, Place(n, g, c, v), Next(n, c), Some(c));
        }
      } else {
        ScanKeepsDeduced(n, k, g, Next(n, c), if target.None? then Some(c) else target);
      }
    }
  }

  lemma CoverAbove(n: Dimension, k: Board, g: Board)
    requires Below(k, g) && UnitsCover(n, k)
    ensures UnitsCover(n, g)
  {
    hide RowCells, ColCells, SectorCells, SectorOf;
    forall c, v | InGrid(n, c) && v in Digits(n)
      ensures Somewhere(g, RowCells(n, c.row), v)
      ensures Somewhere(g, ColCells(n, c.col), v)
      ensures Somewhere(g, SectorCells(n, SectorOf(n, c.col), SectorOf(n, c.row)), v)
    {
      SomewhereAbove(k, g, RowCells(n, c.row), v);
      SomewhereAbove(k, g, ColCells(n, c.col), v);
      SomewhereAbove(k, g, SectorCells(n, SectorOf(n, c.col), SectorOf(n, c.row)), v);
    }
  }

  lemma SomewhereAbove(k: Board, g: Board, unit: seq<Cell>, v: Value)
    requires Below(k, g) && Somewhere(k, unit, v)
    ensures Somewhere(g, unit, v)
  {
  }

  /**
   Refinement gives the greatest settled grid below the start in which every unit has every value somewhere and nothing
   is left to deduce, if there is one; so the order in which the cells are scanned makes no difference to it.
   */
  lemma RefineGreatest(n: Dimension, g: Board)
    requires WellFormed(n, g) && InRange(n, g) && PeerConsistent(n, g)
    ensures forall k :: Deduced(n, k) && Below(k, g) ==> Below(k, Refine(n, g))
    ensures Possible(Refine(n, g)) && UnitsCover(n, Refine(n, g)) <==> exists k :: Deduced(n, k) && Below(k, g)
    ensures Possible(Refine(n, g)) && UnitsCover(n, Refine(n, g)) ==> Deduced(n, Refine(n, g))
  {
    hide PeerConsistent, UnitsCover, Scan, NothingToDeduce, Possible;
    var r := Refine(n, g);
    forall k | Deduced(n, k) && Below(k, g)
      ensures Below(k, r) && Possible(r) && UnitsCover(n, r)
    {
      ScanKeepsDeduced(n, k, g, Cell(0, 0), None);
      CoverAbove(n, k, r);
      assert Possible(r) by {
        PossibleAbove(k, r);
      }
    }
    RefineConsistent(n, g);
    RefineReachesFixpoint(n, g);
    if Possible(r) && UnitsCover(n, r) {
      assert Deduced(n, r);
    }
  }

  lemma {:induction false} NothingToScan(n: Dimension, g: Board, c: Cell, target: Option<Cell>)
    requires WellFormed(n, g) && NothingToDeduce(n, g) && InGrid(n, c)
    requires target.Some? ==> InGrid(n, target.value)
    ensures Scan(n, g, c, target) == g
    decreases ScanLeft(n, c, target)
  {
    if target != Some(c) {
      ScanStep(n, g, c, target);
      NothingToScan(n, g, Next(n, c), if target.None? then Some(c) else target);
    }
  }

  /** Refining a possible refined grid changes nothing. */
  lemma RefineIdempotent(n: Dimension, g: Board)
    requires WellFormed(n, g) && Possible(Refine(n, g))
    ensures Refine(n, Refine(n, g)) == Refine(n, g)
  {
    hide Scan, NothingToDeduce;
    RefineReachesFixpoint(n, g);
    NothingToScan(n, Refine(n, g), Cell(0, 0), None);
  }

  // ----- what refinement does, step by step

  /** The cell is the first with a deduction, counted in the order of the scan from a given cell on. */
  ghost predicate FirstDeduced(n: Dimension, g: Board, from: Cell, c: Cell)
    requires WellFormed(n, g) && InGrid(n, from)
  {
    && c in g && Deduce(n, g, c).Some?
    && forall d :: d in g && Distance(n, from, d) < Distance(n, from, c) ==> Deduce(n, g, d).None?
  }

  /** No cell the scan has passed since a given one had a deduction. */
  ghost predicate Passed(n: Dimension, g: Board, from: Cell, c: Cell)
    requires WellFormed(n, g) && InGrid(n, from)
  {
    forall d :: d in g && Distance(n, from, d) < Distance(n, from, c) ==> Deduce(n, g, d).None?
  }

  /**
   One grid follows another by placing the deduction of the first cell that has one, from a given cell on, and the next
   one follows from the cell behind that. All but the first grid and the last one are possible.
   */
  ghost predicate Deductions(n: Dimension, boards: seq<Board>, cells: seq<Cell>, from: Cell)
    requires InGrid(n, from)
    decreases |cells|
  {
    && |boards| == |cells| + 1
    && WellFormed(n, boards[0])
    && (cells != [] ==>
          && FirstDeduced(n, boards[0], from, cells[0])
          && boards[1] == Place(n, boards[0], cells[0], Deduce(n, boards[0], cells[0]).value)
          && (1 < |cells| ==> Possible(boards[1]))
          && InGrid(n, Next(n, cells[0]))
          && Deductions(n, boards[1..], cells[1..], Next(n, cells[0])))
  }

  /** One step further on, unless that leads back to the start. */
  lemma DistanceOn(n: Dimension, from: Cell, c: Cell)
    requires InGrid(n, from) && InGrid(n, c)
    ensures InGrid(n, Next(n, c))
    ensures Next(n, c) != from ==> Distance(n, from, Next(n, c)) == Distance(n, from, c) + 1
    ensures Distance(n, from, from) == 0
  {
    hide Side;
    NextPosition(n, c);
    PositionInverse(n, from);
    PositionInverse(n, c);
    PositionInverse(n, Next(n, c));
  }

  lemma SameDistance(n: Dimension, from: Cell, c: Cell, d: Cell)
    requires InGrid(n, from) && InGrid(n, c) && InGrid(n, d) && Distance(n, from, c) == Distance(n, from, d)
    ensures c == d
  {
    hide Side;
    PositionInverse(n, from);
    PositionInverse(n, c);
    PositionInverse(n, d);
  }

  lemma PassedOn(n: Dimension, g: Board, from: Cell, c: Cell)
    requires WellFormed(n, g) && InGrid(n, from) && InGrid(n, c) && Passed(n, g, from, c) && Deduce(n, g, c).None?
    ensures InGrid(n, Next(n, c)) && Passed(n, g, from, Next(n, c))
  {
    hide Distance, Deduce, Next, Side;
    DistanceOn(n, from, c);
    forall d | d in g && Distance(n, from, d) < Distance(n, from, Next(n, c))
      ensures Deduce(n, g, d).None?
    {
      if Distance(n, from, d) == Distance(n, from, c) {
        SameDistance(n, from, c, d);
      }
    }
  }

  lemma PassedNone(n: Dimension, g: Board, from: Cell)
    requires WellFormed(n, g) && InGrid(n, from)
    ensures Passed(n, g, from, from)
  {
    hide Deduce;
    DistanceZero(n, from, from);
  }

  lemma {:induction false} ScanDeductions(n: Dimension, g: Board, c: Cell, target: Option<Cell>, from: Cell)
    returns (boards: seq<Board>, cells: seq<Cell>)
    requires WellFormed(n, g) && InGrid(n, c) && InGrid(n, from) && Passed(n, g, from, c)
    requires target.Some? ==> InGrid(n, target.value)
    ensures Deductions(n, boards, cells, from) && boards[0] == g && boards[|cells|] == Scan(n, g, c, target)
    ensures |cells| > 1 ==> Possible(boards[1])
    decreases Pairs(g), ScanLeft(n, c, target)
  {
    hide Place, Deduce, Distance, Next, ScanLeft, Possible;
    if target == Some(c) {
      boards, cells := [g], [];
      ScanStop(n, g, c);
    } else {
      ScanStep(n, g, c, target);
      if Deduce(n, g, c).None? {
        PassedOn(n, g, from, c);
        boards, cells := ScanDeductions(n, g, Next(n, c), if target.None? then Some(c) else target, from);
      } else {
        var h := Place(n, g, c, Deduce(n, g, c).value);
        DeducedPlaceShrinks(n, g, c, Deduce(n, g, c).value);
        if Possible(h) {
          PassedNone(n, h, Next(n, c));
          var more, rest := ScanDeductions(n, h, Next(n, c), Some(c), Next(n, c));
          boards, cells := [g] + more, [c] + rest;
          assert boards[1..] == more && cells[1..] == rest;
        } else {
          boards, cells := [g, h], [c];
          assert boards[1..] == [h] && cells[1..] == [];
        }
      }
    }
  }

  /**
   Refinement places one deduction after the other, each time that of the first cell in the order of the scan, and
   stops as soon as the grid is impossible.
   */
  lemma RefineDeductions(n: Dimension, g: Board) returns (boards: seq<Board>, cells: seq<Cell>)
    requires WellFormed(n, g)
    ensures Deductions(n, boards, cells, Cell(0, 0)) && boards[0] == g && boards[|cells|] == Refine(n, g)
  {
    hide Scan, Deductions;
    PassedNone(n, g, Cell(0, 0));
    boards, cells := ScanDeductions(n, g, Cell(0, 0), None, Cell(0, 0));
  }
}
