/**
 The abstract value of a grid: the set of values each cell may still take, and what it means for a
 complete assignment to be a sudoku solution lying below such a grid.
 */
module Candidates {
  import opened Geometry

  /** A cell value. Zero never becomes a value: in a line it marks a blank. */
  type Value = v: nat | 1 <= v witness 1

  /** The candidates of every cell of a grid. */
  type Board = map<Cell, set<Value>>

  type Assignment = map<Cell, Value>

  predicate WellFormed(n: Dimension, g: Board) {
    g.Keys == CellSet(n)
  }

  predicate Below(a: Board, b: Board) {
    a.Keys == b.Keys && forall c :: c in a ==> a[c] <= b[c]
  }

  function Pairs(g: Board): set<(Cell, Value)> {
    set c, v | c in g && v in g[c] :: (c, v)
  }

  predicate Possible(g: Board) {
    forall c :: c in g ==> g[c] != {}
  }

  predicate Complete(g: Board) {
    forall c :: c in g ==> |g[c]| == 1
  }

  /** All candidates lie in 1..n*n. Only a line of 1 or 16 characters can break this. */
  predicate InRange(n: Dimension, g: Board) {
    forall c, v :: c in g && v in g[c] ==> v <= Side(n)
  }

  function UpTo(k: nat): (s: set<Value>)
    ensures forall v: Value :: v in s <==> v <= k
    ensures |s| == k
  {
    if k == 0 then {} else UpTo(k - 1) + {k}
  }

  function Digits(n: Dimension): set<Value> {
    UpTo(Side(n))
  }

  function Fresh(n: Dimension): Board {
    map c | c in CellSet(n) :: Digits(n)
  }

  /** Whenever two peers share a candidate, neither has it as its only candidate. */
  predicate PeerConsistent(n: Dimension, g: Board) {
    forall a, b, w :: a in g && b in g && Peers(n, a, b) && w in g[a] && w in g[b] ==> |g[a]| != 1
  }

  ghost predicate PeersDiffer(n: Dimension, s: Assignment) {
    forall a, b :: a in s && b in s && Peers(n, a, b) ==> s[a] != s[b]
  }

  /** The assignment takes every value from the grid's candidates and never repeats one among peers. */
  ghost predicate Completes(n: Dimension, s: Assignment, g: Board) {
    && s.Keys == g.Keys
    && (forall c :: c in s ==> s[c] in g[c])
    && PeersDiffer(n, s)
  }

  /** Every value 1..n*n stands in exactly one cell of the unit. */
  ghost predicate HoldsEachValueOnce(n: Dimension, s: Assignment, unit: seq<Cell>)
    requires forall c :: c in unit ==> c in s
  {
    forall v :: v in Digits(n) ==>
      exists c :: c in unit && s[c] == v && forall d :: d in unit && s[d] == v ==> d == c
  }

  ghost predicate ValidUnit(n: Dimension, s: Assignment, unit: seq<Cell>) {
    UnitIn(s, unit) && HoldsEachValueOnce(n, s, unit)
  }

  ghost predicate ValidRows(n: Dimension, s: Assignment) {
    forall k :: 0 <= k < Side(n) ==> ValidUnit(n, s, RowCells(n, k))
  }

  ghost predicate ValidCols(n: Dimension, s: Assignment) {
    forall k :: 0 <= k < Side(n) ==> ValidUnit(n, s, ColCells(n, k))
  }

  ghost predicate ValidSectors(n: Dimension, s: Assignment) {
    forall i, j :: 0 <= i < n && 0 <= j < n ==> ValidUnit(n, s, SectorCells(n, i, j))
  }

  /** A filled-in sudoku: values in range, and every row, column and sector holds each value once. */
  ghost predicate ValidSudoku(n: Dimension, s: Assignment) {
    && s.Keys == CellSet(n)
    && (forall c :: c in s ==> s[c] <= Side(n))
    && ValidRows(n, s)
    && ValidCols(n, s)
    && ValidSectors(n, s)
  }

  predicate UnitIn(s: Assignment, unit: seq<Cell>) {
    forall c :: c in unit ==> c in s
  }

  function Only(s: set<Value>): (v: Value)
    requires |s| == 1
    ensures s == {v}
  {
    SingletonHasOne(s);
    var v :| v in s;
    v
  }

  lemma SingletonHasOne(s: set<Value>)
    requires |s| == 1
    ensures exists v :: s == {v}
    ensures forall v :: v in s ==> s == {v}
  {
    var v :| v in s;
    assert |s - {v}| == 0;
    assert s == {v};
  }

  lemma SubsetOfSingleton(s: set<Value>, v: Value)
    requires s <= {v} && s != {}
    ensures s == {v} && |s| == 1
  {
    var w :| w in s;
    assert w == v;
  }

  lemma SmallerCount<T>(a: set<T>, b: set<T>)
    requires a <= b
    ensures |a| <= |b|
    ensures |a| == |b| ==> a == b
  {
    assert b == a + (b - a);
    assert |b| == |a| + |b - a|;
  }

  lemma BelowPairs(a: Board, b: Board)
    requires Below(a, b)
    ensures Pairs(a) <= Pairs(b)
  {
  }

  lemma BelowTransitive(a: Board, b: Board, c: Board)
    requires Below(a, b) && Below(b, c)
    ensures Below(a, c)
  {
  }

  lemma PossibleAbove(a: Board, b: Board)
    requires Possible(a) && Below(a, b)
    ensures Possible(b)
  {
  }

  lemma RemovalShrinks(g: Board, c: Cell, v: Value)
    requires c in g && v in g[c]
    ensures Below(g[c := g[c] - {v}], g)
    ensures Pairs(g[c := g[c] - {v}]) < Pairs(g)
  {
    assert (c, v) in Pairs(g);
  }

  lemma ChoiceShrinks(g: Board, c: Cell, v: Value)
    requires c in g && v in g[c] && |g[c]| != 1
    ensures Below(g[c := {v}], g)
    ensures Pairs(g[c := {v}]) < Pairs(g)
  {
    assert g[c] != {v};
    var w :| w in g[c] && w != v;
    assert (c, w) in Pairs(g);
    assert (c, w) !in Pairs(g[c := {v}]);
  }

  lemma BelowCompletes(n: Dimension, s: Assignment, a: Board, b: Board)
    requires Below(a, b) && Completes(n, s, a)
    ensures Completes(n, s, b)
  {
  }

  // ----- candidates in ascending order

  function Least(s: set<Value>): (v: Value)
    requires s != {}
    ensures v in s && forall u :: u in s ==> v <= u
    decreases |s|
  {
    LeastExists(s);
    var v :| v in s && forall u :: u in s ==> v <= u;
    v
  }

  lemma LeastMember(s: set<Value>) returns (v: Value)
    requires s != {}
    ensures v in s && forall u :: u in s ==> v <= u
    decreases |s|
  {
    v :| v in s;
    var rest := s - {v};
    assert s == rest + {v};
    if rest != {} {
      var w := LeastMember(rest);
      if w < v {
        v := w;
      }
    }
  }

  lemma LeastExists(s: set<Value>)
    requires s != {}
    ensures exists v :: v in s && forall u :: u in s ==> v <= u
  {
    var v := LeastMember(s);
  }

  predicate StrictlyAscending(r: seq<Value>) {
    forall i, j :: 0 <= i < j < |r| ==> r[i] < r[j]
  }

  function Ascending(s: set<Value>): (r: seq<Value>)
    ensures forall v :: v in r <==> v in s
    ensures |r| == |s| && StrictlyAscending(r)
    decreases |s|
  {
    if s == {} then []
    else
      var v := Least(s);
      LeastFirst(s, v, Ascending(s - {v}));
      [v] + Ascending(s - {v})
  }

  lemma LeastFirst(s: set<Value>, v: Value, rest: seq<Value>)
    requires v in s && (forall u :: u in s ==> v <= u)
    requires (forall u :: u in rest <==> u in s - {v}) && |rest| == |s - {v}| && StrictlyAscending(rest)
    ensures forall u :: u in [v] + rest <==> u in s
    ensures |[v] + rest| == |s| && StrictlyAscending([v] + rest)
  {
    forall i | 0 <= i < |rest|
      ensures v < rest[i]
    {
      assert rest[i] in rest;
    }
    forall u
      ensures u in [v] + rest <==> u in s
    {
      assert u in [v] + rest <==> u == v || u in rest;
    }
  }

  // ----- the pigeonhole argument behind units

  function Image(s: Assignment, unit: seq<Cell>): (r: set<Value>)
    requires UnitIn(s, unit)
    ensures forall c :: c in unit ==> s[c] in r
    ensures forall v :: v in r ==> exists c :: c in unit && s[c] == v
    decreases |unit|
  {
    if unit == [] then {}
    else
      assert unit == [unit[0]] + unit[1..];
      {s[unit[0]]} + Image(s, unit[1..])
  }

  predicate Injective(s: Assignment, unit: seq<Cell>)
    requires UnitIn(s, unit)
  {
    forall c, d :: c in unit && d in unit && c != d ==> s[c] != s[d]
  }

  lemma {:induction false} InjectiveImageSize(s: Assignment, unit: seq<Cell>)
    requires UnitIn(s, unit) && Distinct(unit) && Injective(s, unit)
    ensures |Image(s, unit)| == |unit|
    decreases |unit|
  {
    hide Distinct, Injective;
    if unit != [] {
      TailOfUnit(s, unit);
      InjectiveImageSize(s, unit[1..]);
      ImageStep(s, unit);
    }
  }

  lemma ImageStep(s: Assignment, unit: seq<Cell>)
    requires UnitIn(s, unit) && unit != []
    ensures UnitIn(s, unit[1..]) && Image(s, unit) == {s[unit[0]]} + Image(s, unit[1..])
  {
  }

  lemma TailOfUnit(s: Assignment, unit: seq<Cell>)
    requires UnitIn(s, unit) && Distinct(unit) && Injective(s, unit) && unit != []
    ensures UnitIn(s, unit[1..]) && Distinct(unit[1..]) && Injective(s, unit[1..])
    ensures s[unit[0]] !in Image(s, unit[1..])
  {
    hide Image;
    var c, rest := unit[0], unit[1..];
    assert unit == [c] + rest && forall d :: d in unit <==> d == c || d in rest;
  }

  /** n*n distinct values in range must be all the values in range. */
  lemma FullUnitHoldsEveryValue(n: Dimension, s: Assignment, unit: seq<Cell>)
    requires UnitIn(s, unit) && Distinct(unit) && |unit| == Side(n)
    requires forall c :: c in unit ==> s[c] <= Side(n)
    requires Injective(s, unit)
    ensures Image(s, unit) == Digits(n)
    ensures HoldsEachValueOnce(n, s, unit)
  {
    InjectiveImageSize(s, unit);
    SmallerCount(Image(s, unit), Digits(n));
    forall v | v in Digits(n)
      ensures exists c :: c in unit && s[c] == v && forall d :: d in unit && s[d] == v ==> d == c
    {
      assert v in Image(s, unit);
    }
  }

  lemma PeerFreeUnit(n: Dimension, s: Assignment, unit: seq<Cell>)
    requires s.Keys == CellSet(n) && PeersDiffer(n, s) && IsUnit(n, unit)
    requires forall c :: c in s ==> s[c] <= Side(n)
    ensures UnitIn(s, unit) && HoldsEachValueOnce(n, s, unit)
  {
    FullUnitHoldsEveryValue(n, s, unit);
  }

  lemma PeersDifferMakesValid(n: Dimension, s: Assignment)
    requires s.Keys == CellSet(n) && (forall c :: c in s ==> s[c] <= Side(n)) && PeersDiffer(n, s)
    ensures ValidSudoku(n, s)
  {
    forall k: nat | k < Side(n)
      ensures ValidUnit(n, s, RowCells(n, k)) && ValidUnit(n, s, ColCells(n, k))
    {
      RowIsUnit(n, k);
      PeerFreeUnit(n, s, RowCells(n, k));
      ColIsUnit(n, k);
      PeerFreeUnit(n, s, ColCells(n, k));
    }
    forall i: nat, j: nat | i < n && j < n
      ensures ValidUnit(n, s, SectorCells(n, i, j))
    {
      SectorIsUnit(n, i, j);
      PeerFreeUnit(n, s, SectorCells(n, i, j));
    }
  }

  lemma UnitSeparates(n: Dimension, s: Assignment, unit: seq<Cell>, a: Cell, b: Cell)
    requires ValidUnit(n, s, unit)
    requires a in unit && b in unit && a != b && s[a] <= Side(n)
    ensures s[a] != s[b]
  {
    assert s[a] in Digits(n);
  }

  lemma RowsSeparate(n: Dimension, s: Assignment, a: Cell, b: Cell)
    requires ValidRows(n, s) && InGrid(n, a) && InGrid(n, b) && a != b && a.row == b.row
    requires a in s && b in s && s[a] <= Side(n)
    ensures s[a] != s[b]
  {
    RowContents(n, a.row);
    UnitSeparates(n, s, RowCells(n, a.row), a, b);
  }

  lemma ColsSeparate(n: Dimension, s: Assignment, a: Cell, b: Cell)
    requires ValidCols(n, s) && InGrid(n, a) && InGrid(n, b) && a != b && a.col == b.col
    requires a in s && b in s && s[a] <= Side(n)
    ensures s[a] != s[b]
  {
    ColContents(n, a.col);
    UnitSeparates(n, s, ColCells(n, a.col), a, b);
  }

  lemma SectorsSeparate(n: Dimension, s: Assignment, a: Cell, b: Cell)
    requires ValidSectors(n, s) && InGrid(n, a) && InGrid(n, b) && a != b && SameSector(n, a, b)
    requires a in s && b in s && s[a] <= Side(n)
    ensures s[a] != s[b]
  {
    SectorIndexBound(n, a);
    SectorCellOf(n, a);
    SectorCellOf(n, b);
    UnitSeparates(n, s, SectorCells(n, SectorOf(n, a.col), SectorOf(n, a.row)), a, b);
  }

  lemma ValidMakesPeersDiffer(n: Dimension, s: Assignment)
    requires ValidSudoku(n, s)
    ensures PeersDiffer(n, s)
  {
    forall a, b | a in s && b in s && Peers(n, a, b)
      ensures s[a] != s[b]
    {
      if a.row == b.row {
        RowsSeparate(n, s, a, b);
      } else if a.col == b.col {
        ColsSeparate(n, s, a, b);
      } else {
        SectorsSeparate(n, s, a, b);
      }
    }
  }

  /** A filled-in sudoku is the same thing as values in range that differ between peers. */
  lemma ValidSudokuIff(n: Dimension, s: Assignment)
    ensures ValidSudoku(n, s)
            <==> s.Keys == CellSet(n) && (forall c :: c in s ==> s[c] <= Side(n)) && PeersDiffer(n, s)
  {
    if ValidSudoku(n, s) {
      ValidMakesPeersDiffer(n, s);
    } else if s.Keys == CellSet(n) && (forall c :: c in s ==> s[c] <= Side(n)) && PeersDiffer(n, s) {
      PeersDifferMakesValid(n, s);
    }
  }
}
