/**
 Whether the order of clues matters. For clues in 1..n*n it never does. A clue out of range can overwrite a cell that
 propagation has decided, while the cell's earlier value stays removed from its peers; then an order that places the
 clue before the cell is decided leaves more. The exact condition is found by comparing two orders: the one with all
 clues out of range first leaves the most, the one with them last the least.
 */
module Orders {
  import opened Geometry
  import opened Candidates
  import opened Propagation
  import opened Clues

  // ----- clues in range and clues out of range

  /** The clues in range, in the order of the list. */
  function Inside(n: Dimension, clues: seq<Clue>): (r: seq<Clue>)
    ensures forall x :: x in r <==> x in clues && x.value <= Side(n)
    decreases |clues|
  {
    if clues == [] then []
    else
      var front, last := clues[..|clues| - 1], clues[|clues| - 1];
      assert clues == front + [last];
      Inside(n, front) + if last.value <= Side(n) then [last] else []
  }

  /** The clues out of range, in the order of the list. */
  function Outside(n: Dimension, clues: seq<Clue>): (r: seq<Clue>)
    ensures forall x :: x in r <==> x in clues && Side(n) < x.value
    decreases |clues|
  {
    if clues == [] then []
    else
      var front, last := clues[..|clues| - 1], clues[|clues| - 1];
      assert clues == front + [last];
      Outside(n, front) + if Side(n) < last.value then [last] else []
  }

  lemma OnePerCellMembers(clues: seq<Clue>, x: Clue, y: Clue)
    requires OnePerCell(clues) && x in clues && y in clues && x.cell == y.cell
    ensures x == y
  {
  }

  lemma AppendOnePerCell(clues: seq<Clue>, x: Clue)
    requires OnePerCell(clues) && forall y :: y in clues ==> y.cell != x.cell
    ensures OnePerCell(clues + [x])
  {
    assert forall i :: 0 <= i < |clues| ==> clues[i] in clues;
  }

  lemma LastIsNew(clues: seq<Clue>)
    requires OnePerCell(clues) && clues != []
    ensures OnePerCell(clues[..|clues| - 1])
    ensures forall y :: y in clues[..|clues| - 1] ==> y.cell != clues[|clues| - 1].cell
  {
  }

  lemma {:induction false} PartsOnePerCell(n: Dimension, clues: seq<Clue>)
    requires OnePerCell(clues)
    ensures OnePerCell(Inside(n, clues)) && OnePerCell(Outside(n, clues))
    decreases |clues|
  {
    if clues != [] {
      var front, last := clues[..|clues| - 1], clues[|clues| - 1];
      LastIsNew(clues);
      PartsOnePerCell(n, front);
      if last.value <= Side(n) {
        AppendOnePerCell(Inside(n, front), last);
      } else {
        AppendOnePerCell(Outside(n, front), last);
      }
    }
  }

  lemma {:induction false} ConcatOnePerCell(a: seq<Clue>, b: seq<Clue>)
    requires OnePerCell(a) && OnePerCell(b) && forall x, y :: x in a && y in b ==> x.cell != y.cell
    ensures OnePerCell(a + b)
    decreases |b|
  {
    if b == [] {
      assert a + b == a;
    } else {
      var front, last := b[..|b| - 1], b[|b| - 1];
      LastIsNew(b);
      ConcatOnePerCell(a, front);
      AppendOnePerCell(a + front, last);
      assert a + front + [last] == a + b;
    }
  }

  lemma MembersIn(n: Dimension, clues: seq<Clue>, part: seq<Clue>)
    requires CluesIn(n, clues) && forall x :: x in part ==> x in clues
    ensures CluesIn(n, part)
  {
    forall i | 0 <= i < |part|
      ensures InGrid(n, part[i].cell)
    {
      assert part[i] in part;
    }
  }

  /** The same clues in another order. */
  ghost predicate Rearranged(n: Dimension, xs: seq<Clue>, ys: seq<Clue>) {
    CluesIn(n, ys) && OnePerCell(ys) && forall x :: x in xs <==> x in ys
  }

  function OutsideFirst(n: Dimension, clues: seq<Clue>): seq<Clue> {
    Outside(n, clues) + Inside(n, clues)
  }

  function OutsideLast(n: Dimension, clues: seq<Clue>): seq<Clue> {
    Inside(n, clues) + Outside(n, clues)
  }

  lemma PartsIn(n: Dimension, clues: seq<Clue>)
    requires CluesIn(n, clues) && OnePerCell(clues)
    ensures CluesIn(n, Inside(n, clues)) && OnePerCell(Inside(n, clues))
    ensures CluesIn(n, Outside(n, clues)) && OnePerCell(Outside(n, clues))
  {
    MembersIn(n, clues, Inside(n, clues));
    MembersIn(n, clues, Outside(n, clues));
    PartsOnePerCell(n, clues);
  }

  /** Both orders are orders of the given clues. */
  lemma ExtremeOrders(n: Dimension, clues: seq<Clue>)
    requires CluesIn(n, clues) && OnePerCell(clues)
    ensures Rearranged(n, clues, OutsideFirst(n, clues)) && Rearranged(n, clues, OutsideLast(n, clues))
  {
    var ins, outs := Inside(n, clues), Outside(n, clues);
    PartsIn(n, clues);
    forall x, y | x in ins && y in outs
      ensures x.cell != y.cell
    {
      if x.cell == y.cell {
        OnePerCellMembers(clues, x, y);
      }
    }
    ConcatOnePerCell(outs, ins);
    ConcatOnePerCell(ins, outs);
    MembersIn(n, clues, outs + ins);
    MembersIn(n, clues, ins + outs);
  }

  // ----- the most that an order can leave: clues out of range first

  lemma {:induction false} PlaceAllConcat(n: Dimension, g: Board, a: seq<Clue>, b: seq<Clue>)
    requires WellFormed(n, g) && CluesIn(n, a) && CluesIn(n, b)
    ensures CluesIn(n, a + b) && PlaceAll(n, g, a + b) == PlaceAll(n, PlaceAll(n, g, a), b)
    decreases |b|
  {
    hide Place;
    if b == [] {
      assert a + b == a;
    } else {
      assert (a + b)[..|a + b| - 1] == a + b[..|b| - 1];
      PlaceAllConcat(n, g, a, b[..|b| - 1]);
    }
  }

  lemma {:induction false} NothingToRemove(n: Dimension, g: Board, cells: seq<Cell>, v: Value)
    requires WellFormed(n, g) && forall d :: d in cells ==> InGrid(n, d) && v !in g[d]
    ensures RemoveFromAll(n, g, cells, v) == g
    decreases |cells|
  {
    if cells != [] {
      assert v !in g[cells[0]];
      NothingToRemove(n, g, cells[1..], v);
    }
  }

  /** A value that no peer has is placed without any effect on other cells. */
  lemma PlaceUnused(n: Dimension, g: Board, c: Cell, v: Value)
    requires WellFormed(n, g) && InGrid(n, c) && forall d :: Peers(n, c, d) ==> v !in g[d]
    ensures Place(n, g, c, v) == g[c := {v}]
  {
    RelatedExact(n, c);
    NothingToRemove(n, g[c := {v}], Related(n, c), v);
  }

  /** Two clues of the same value in peers. */
  ghost predicate Clashing(n: Dimension, clues: seq<Clue>) {
    exists x, y :: x in clues && y in clues && Peers(n, x.cell, y.cell) && x.value == y.value
  }

  lemma SettledMeetsNoClash(n: Dimension, k: Board, clues: seq<Clue>)
    requires Settled(n, k) && MeetsClues(k, clues)
    ensures !Clashing(n, clues)
  {
    forall x, y | x in clues && y in clues && Peers(n, x.cell, y.cell)
      ensures x.value != y.value
    {
      assert x.value in k[x.cell] && y.value in k[y.cell];
    }
  }

  /** Whatever settled grid meets the clues and fits a new grid elsewhere than in cells of clues out of range. */
  ghost predicate Fits(n: Dimension, k: Board, clues: seq<Clue>) {
    && Settled(n, k) && MeetsClues(k, clues)
    && forall c :: c in k && (forall x :: x in clues && Side(n) < x.value ==> x.cell != c) ==> k[c] <= Digits(n)
  }

  lemma FitsPossible(n: Dimension, k: Board, clues: seq<Clue>)
    requires Fits(n, k, clues)
    ensures Possible(k)
  {
  }

  /** A possible result fits its clues. */
  lemma PossibleResultFits(n: Dimension, clues: seq<Clue>)
    requires CluesIn(n, clues) && OnePerCell(clues) && Possible(PlaceAll(n, Fresh(n), clues))
    ensures Fits(n, PlaceAll(n, Fresh(n), clues), clues)
  {
    hide PlaceAll, Place, PeerConsistent;
    var r := PlaceAll(n, Fresh(n), clues);
    FreshSettled(n);
    PossibleResultMeetsClues(n, Fresh(n), clues);
    PlaceAllBounds(n, Fresh(n), clues);
    forall c | c in r && forall x :: x in clues && Side(n) < x.value ==> x.cell != c
      ensures r[c] <= Digits(n)
    {
      if x :| x in clues && x.cell == c {
        assert r[c] == {x.value};
      }
    }
  }

  /** A new grid with some clues out of range put into it. */
  ghost predicate Marked(n: Dimension, g: Board, outs: seq<Clue>) {
    && WellFormed(n, g)
    && (forall x :: x in outs ==> x.cell in g && g[x.cell] == {x.value})
    && (forall c :: c in g && (forall x :: x in outs ==> x.cell != c) ==> g[c] == Digits(n))
  }

  lemma MarkNext(n: Dimension, g: Board, front: seq<Clue>, last: Clue)
    requires Marked(n, g, front) && InGrid(n, last.cell) && Side(n) < last.value && !Clashing(n, front + [last])
    requires forall y :: y in front ==> y.cell != last.cell
    ensures Marked(n, Place(n, g, last.cell, last.value), front + [last])
  {
    hide Place, Side;
    forall d | Peers(n, last.cell, d)
      ensures last.value !in g[d]
    {
      if x :| x in front && x.cell == d {
        assert Peers(n, d, last.cell);
        assert x in front + [last] && last in front + [last];
      }
    }
    PlaceUnused(n, g, last.cell, last.value);
  }

  /** Clues out of range that do not clash leave a new grid as it is but for their own cells. */
  lemma {:induction false} OutsideOnFresh(n: Dimension, outs: seq<Clue>)
    requires CluesIn(n, outs) && OnePerCell(outs) && (forall x :: x in outs ==> Side(n) < x.value)
    requires !Clashing(n, outs)
    ensures Marked(n, PlaceAll(n, Fresh(n), outs), outs)
    decreases |outs|
  {
    hide Place, Clashing, Side;
    if outs != [] {
      var front, last := outs[..|outs| - 1], outs[|outs| - 1];
      assert outs == front + [last];
      LastIsNew(outs);
      ClashOfPart(n, front, last);
      OutsideOnFresh(n, front);
      MarkNext(n, PlaceAll(n, Fresh(n), front), front, last);
    }
  }

  lemma FitsMarked(n: Dimension, k: Board, clues: seq<Clue>, g: Board)
    requires Fits(n, k, clues) && Marked(n, g, Outside(n, clues))
    ensures Below(k, g)
  {
    hide PeerConsistent, Side, Outside;
    var outs := Outside(n, clues);
    forall c | c in k
      ensures k[c] <= g[c]
    {
      if x :| x in outs && x.cell == c {
        assert k[c] == {x.value};
      }
    }
  }

  /** With the clues out of range first, everything is left that fits the clues. */
  lemma FitsBelowHighest(n: Dimension, k: Board, clues: seq<Clue>)
    requires CluesIn(n, clues) && OnePerCell(clues) && Fits(n, k, clues)
    ensures CluesIn(n, OutsideFirst(n, clues)) && Below(k, PlaceAll(n, Fresh(n), OutsideFirst(n, clues)))
  {
    hide Place, PlaceAll, PeerConsistent, Peers, Inside, Outside, Marked, Side;
    var ins, outs := Inside(n, clues), Outside(n, clues);
    PartsIn(n, clues);
    SettledMeetsNoClash(n, k, outs);
    OutsideOnFresh(n, outs);
    var g := PlaceAll(n, Fresh(n), outs);
    FitsMarked(n, k, clues, g);
    PlaceAllKeepsSettled(n, k, g, ins);
    PlaceAllConcat(n, Fresh(n), outs, ins);
  }

  // ----- the least that an order can leave: clues out of range last

  /** The clues out of range put into a grid, without any propagation. */
  function Overwrite(n: Dimension, g: Board, clues: seq<Clue>): (k: Board)
    requires WellFormed(n, g) && CluesIn(n, clues)
    ensures WellFormed(n, k)
    decreases |clues|
  {
    if clues == [] then g
    else
      var k, last := Overwrite(n, g, clues[..|clues| - 1]), clues[|clues| - 1];
      if Side(n) < last.value then k[last.cell := {last.value}] else k
  }

  lemma {:induction false} OverwriteExact(n: Dimension, g: Board, clues: seq<Clue>)
    requires WellFormed(n, g) && CluesIn(n, clues) && OnePerCell(clues)
    ensures var k := Overwrite(n, g, clues);
            && (forall x :: x in clues && Side(n) < x.value ==> k[x.cell] == {x.value})
            && (forall c :: c in k && (forall x :: x in clues && Side(n) < x.value ==> x.cell != c) ==> k[c] == g[c])
    decreases |clues|
  {
    hide OnePerCell;
    if clues != [] {
      var front, last := clues[..|clues| - 1], clues[|clues| - 1];
      assert clues == front + [last];
      LastIsNew(clues);
      OverwriteExact(n, g, front);
    }
  }

  /** A value that no peer has can replace what a cell of a settled grid has. */
  lemma UnusedFits(n: Dimension, k: Board, c: Cell, v: Value)
    requires Settled(n, k) && InGrid(n, c) && forall d :: Peers(n, c, d) ==> v !in k[d]
    ensures Settled(n, k[c := {v}])
  {
    assert forall d :: Peers(n, d, c) ==> Peers(n, c, d);
  }

  /** A settled grid with a clue's value in the clue's cell survives the clue whatever that cell held before. */
  lemma OverwritingKeeps(n: Dimension, k: Board, g: Board, x: Clue)
    requires WellFormed(n, g) && InGrid(n, x.cell) && Settled(n, k) && k[x.cell] == {x.value}
    requires forall c :: c in k && c != x.cell ==> k[c] <= g[c]
    ensures Below(k, Place(n, g, x.cell, x.value))
  {
    RemoveRelatedKeepsSettled(n, k, g[x.cell := {x.value}], x.cell, x.value);
  }

  /** A settled grid in range that the clues in range are met by. */
  ghost predicate FitsInside(n: Dimension, g: Board, clues: seq<Clue>) {
    Settled(n, g) && Below(g, Fresh(n)) && forall x :: x in clues && x.value <= Side(n) ==> x.cell in g && g[x.cell] == {x.value}
  }

  lemma OverwriteNext(n: Dimension, g: Board, front: seq<Clue>, last: Clue)
    requires FitsInside(n, g, front) && CluesIn(n, front) && OnePerCell(front) && InGrid(n, last.cell)
    requires (forall y :: y in front ==> y.cell != last.cell) && Side(n) < last.value && !Clashing(n, front + [last])
    requires Settled(n, Overwrite(n, g, front))
    ensures Settled(n, Overwrite(n, g, front)[last.cell := {last.value}])
  {
    hide Overwrite, Place, PeerConsistent;
    OverwriteExact(n, g, front);
    var k := Overwrite(n, g, front);
    forall d | Peers(n, last.cell, d)
      ensures last.value !in k[d]
    {
      if x :| x in front && Side(n) < x.value && x.cell == d {
        assert Peers(n, d, last.cell);
        assert x in front + [last] && last in front + [last];
      }
    }
    UnusedFits(n, k, last.cell, last.value);
  }

  lemma ClashOfPart(n: Dimension, front: seq<Clue>, last: Clue)
    requires !Clashing(n, front + [last])
    ensures !Clashing(n, front)
  {
    assert forall x :: x in front ==> x in front + [last];
  }

  /** In whatever order, a settled grid that meets the clues in range survives but for the cells overwritten. */
  lemma {:induction false} OverwriteSurvives(n: Dimension, g: Board, clues: seq<Clue>)
    requires CluesIn(n, clues) && OnePerCell(clues) && FitsInside(n, g, clues) && !Clashing(n, clues)
    ensures Settled(n, Overwrite(n, g, clues)) && Below(Overwrite(n, g, clues), PlaceAll(n, Fresh(n), clues))
    decreases |clues|
  {
    hide Place, PeerConsistent, Peers, Clashing, Fresh, Possible;
    if clues != [] {
      var front, last := clues[..|clues| - 1], clues[|clues| - 1];
      assert clues == front + [last];
      LastIsNew(clues);
      ClashOfPart(n, front, last);
      OverwriteSurvives(n, g, front);
      var k := Overwrite(n, g, front);
      if Side(n) < last.value {
        OverwriteNext(n, g, front, last);
        OverwritingKeeps(n, k[last.cell := {last.value}], PlaceAll(n, Fresh(n), front), last);
      } else {
        OverwriteExact(n, g, front);
        OverwritingKeeps(n, k, PlaceAll(n, Fresh(n), front), last);
      }
    }
  }

  // ----- all orders

  /** What the clues in range leave on their own. */
  ghost function InsideResult(n: Dimension, clues: seq<Clue>): (g: Board)
    requires CluesIn(n, clues) && OnePerCell(clues)
    ensures WellFormed(n, g)
  {
    PartsIn(n, clues);
    PlaceAll(n, Fresh(n), Inside(n, clues))
  }

  /** The most that an order can leave. */
  ghost function Highest(n: Dimension, clues: seq<Clue>): (g: Board)
    requires CluesIn(n, clues) && OnePerCell(clues)
    ensures WellFormed(n, g)
  {
    ExtremeOrders(n, clues);
    PlaceAll(n, Fresh(n), OutsideFirst(n, clues))
  }

  /** The least that an order can leave. */
  ghost function Lowest(n: Dimension, clues: seq<Clue>): (g: Board)
    requires CluesIn(n, clues) && OnePerCell(clues)
    ensures WellFormed(n, g)
  {
    ExtremeOrders(n, clues);
    PlaceAll(n, Fresh(n), OutsideLast(n, clues))
  }

  lemma SameFits(n: Dimension, k: Board, xs: seq<Clue>, ys: seq<Clue>)
    requires Fits(n, k, ys) && Rearranged(n, xs, ys)
    ensures Fits(n, k, xs)
  {
  }

  /** No order leaves anything possible beyond the highest result. */
  lemma BelowHighest(n: Dimension, xs: seq<Clue>, ys: seq<Clue>)
    requires CluesIn(n, xs) && OnePerCell(xs) && Rearranged(n, xs, ys) && Possible(PlaceAll(n, Fresh(n), ys))
    ensures Fits(n, PlaceAll(n, Fresh(n), ys), xs)
    ensures Below(PlaceAll(n, Fresh(n), ys), Highest(n, xs)) && Possible(Highest(n, xs))
  {
    hide PlaceAll, Fits, Possible, Below;
    PossibleResultFits(n, ys);
    SameFits(n, PlaceAll(n, Fresh(n), ys), xs, ys);
    FitsBelowHighest(n, PlaceAll(n, Fresh(n), ys), xs);
    PossibleAbove(PlaceAll(n, Fresh(n), ys), Highest(n, xs));
  }

  /** What the clues in range leave survives every order elsewhere than in the cells of clues out of range. */
  lemma AboveInside(n: Dimension, xs: seq<Clue>, ys: seq<Clue>)
    requires CluesIn(n, xs) && OnePerCell(xs) && Rearranged(n, xs, ys) && !Clashing(n, xs)
    requires Possible(InsideResult(n, xs))
    ensures Settled(n, InsideResult(n, xs)) && Possible(PlaceAll(n, Fresh(n), ys))
    ensures forall c :: c in InsideResult(n, xs) && (forall x :: x in xs && Side(n) < x.value ==> x.cell != c)
                        ==> InsideResult(n, xs)[c] <= PlaceAll(n, Fresh(n), ys)[c]
  {
    hide Place, PlaceAll, PeerConsistent, Peers, Inside, Overwrite, Side, Clashing;
    var g := InsideResult(n, xs);
    InsideFits(n, xs, ys);
    OverwriteSurvives(n, g, ys);
    OverwriteExact(n, g, ys);
    PossibleAbove(Overwrite(n, g, ys), PlaceAll(n, Fresh(n), ys));
  }

  lemma InsideFits(n: Dimension, xs: seq<Clue>, ys: seq<Clue>)
    requires CluesIn(n, xs) && OnePerCell(xs) && Rearranged(n, xs, ys)
    requires Possible(InsideResult(n, xs))
    ensures FitsInside(n, InsideResult(n, xs), ys)
    ensures !Clashing(n, xs) ==> !Clashing(n, ys)
  {
    hide Place, PlaceAll, PeerConsistent, Peers;
    PartsIn(n, xs);
    FreshSettled(n);
    PossibleResultMeetsClues(n, Fresh(n), Inside(n, xs));
    InsideBelowFresh(n, Inside(n, xs));
  }

  lemma InsideBelowFresh(n: Dimension, ins: seq<Clue>)
    requires CluesIn(n, ins) && OnePerCell(ins) && forall x :: x in ins ==> x.value <= Side(n)
    ensures Below(PlaceAll(n, Fresh(n), ins), Fresh(n))
  {
    hide Place, PlaceAll;
    forall x | x in ins
      ensures x.cell in Fresh(n) && x.value in Fresh(n)[x.cell]
    {
      var i :| 0 <= i < |ins| && ins[i] == x;
    }
    ResultBelow(n, Fresh(n), ins);
  }

  /** With the clues out of range last, nothing is left in other cells beyond what the clues in range leave. */
  lemma LowestBelowInside(n: Dimension, xs: seq<Clue>, c: Cell)
    requires CluesIn(n, xs) && OnePerCell(xs) && InGrid(n, c)
    requires forall x :: x in xs && Side(n) < x.value ==> x.cell != c
    ensures c in Lowest(n, xs) && Lowest(n, xs)[c] <= InsideResult(n, xs)[c]
  {
    hide Place, PlaceAll, Inside, Outside;
    PartsIn(n, xs);
    var ins, outs := Inside(n, xs), Outside(n, xs);
    PlaceAllConcat(n, Fresh(n), ins, outs);
    assert forall i :: 0 <= i < |outs| ==> outs[i] in outs;
    OtherCellBound(n, PlaceAll(n, Fresh(n), ins), outs, c);
  }

  /** Neither whether the result is possible nor, if it is, what it is depends on the order. */
  ghost predicate OrderFree(n: Dimension, xs: seq<Clue>)
    requires CluesIn(n, xs)
  {
    forall ys :: Rearranged(n, xs, ys) ==>
      && (Possible(PlaceAll(n, Fresh(n), ys)) <==> Possible(PlaceAll(n, Fresh(n), xs)))
      && (Possible(PlaceAll(n, Fresh(n), xs)) ==> PlaceAll(n, Fresh(n), ys) == PlaceAll(n, Fresh(n), xs))
  }

  /**
   Where the clues in range decide a cell that a clue out of range is to overwrite, no peer of the cell could keep the
   value it is decided for.
   */
  ghost predicate NothingLost(n: Dimension, xs: seq<Clue>)
    requires CluesIn(n, xs) && OnePerCell(xs)
  {
    forall p, w, e :: p in xs && Side(n) < p.value && InsideResult(n, xs)[p.cell] == {w} && Peers(n, p.cell, e)
                      ==> w !in Highest(n, xs)[e]
  }

  ghost predicate OutsideCell(n: Dimension, xs: seq<Clue>, c: Cell) {
    exists x :: x in xs && Side(n) < x.value && x.cell == c
  }

  lemma InsideIsFresh(n: Dimension, xs: seq<Clue>)
    requires CluesIn(n, xs) && OnePerCell(xs)
    ensures Below(InsideResult(n, xs), Fresh(n))
  {
    hide PlaceAll;
    PartsIn(n, xs);
    InsideBelowFresh(n, Inside(n, xs));
  }

  lemma HighestFits(n: Dimension, xs: seq<Clue>)
    requires CluesIn(n, xs) && OnePerCell(xs) && !Clashing(n, xs) && Possible(InsideResult(n, xs))
    ensures Settled(n, InsideResult(n, xs)) && Fits(n, Highest(n, xs), xs)
    ensures forall c :: c in InsideResult(n, xs) && !OutsideCell(n, xs, c) ==> InsideResult(n, xs)[c] <= Highest(n, xs)[c]
  {
    hide PlaceAll, Settled, Possible, Fits, Peers;
    ExtremeOrders(n, xs);
    AboveInside(n, xs, OutsideFirst(n, xs));
    BelowHighest(n, xs, OutsideFirst(n, xs));
  }

  /** A lost value tells the lowest result from the highest. */
  lemma LostValueShows(n: Dimension, xs: seq<Clue>, p: Clue, w: Value, e: Cell)
    requires CluesIn(n, xs) && OnePerCell(xs) && !Clashing(n, xs) && Possible(InsideResult(n, xs))
    requires p in xs && Side(n) < p.value && InsideResult(n, xs)[p.cell] == {w} && Peers(n, p.cell, e)
    requires w in Highest(n, xs)[e]
    ensures Lowest(n, xs) != Highest(n, xs)
  {
    hide PlaceAll, InsideResult, Highest, Lowest, OrderFree;
    InsideIsFresh(n, xs);
    HighestFits(n, xs);
    var g := InsideResult(n, xs);
    assert w in g[p.cell] && g[p.cell] <= Fresh(n)[p.cell];
    if x :| x in xs && Side(n) < x.value && x.cell == e {
      assert false;
    } else {
      LowestBelowInside(n, xs, e);
    }
  }

  lemma LostValueBreaksOrder(n: Dimension, xs: seq<Clue>)
    requires CluesIn(n, xs) && OnePerCell(xs) && !Clashing(n, xs) && Possible(InsideResult(n, xs))
    requires !NothingLost(n, xs)
    ensures !OrderFree(n, xs)
  {
    hide PlaceAll, InsideResult;
    var p, w, e :| p in xs && Side(n) < p.value && InsideResult(n, xs)[p.cell] == {w} && Peers(n, p.cell, e)
                   && w in Highest(n, xs)[e];
    LostValueShows(n, xs, p, w, e);
    ExtremeOrders(n, xs);
    AboveInside(n, xs, OutsideFirst(n, xs));
  }

  /** The highest result with the cells of clues out of range as the clues in range leave them. */
  ghost function Restored(n: Dimension, xs: seq<Clue>, g: Board, high: Board): (k: Board)
    requires WellFormed(n, g) && WellFormed(n, high)
    ensures WellFormed(n, k)
  {
    map c | c in CellSet(n) :: if OutsideCell(n, xs, c) then g[c] else high[c]
  }

  lemma RestoredSettled(n: Dimension, xs: seq<Clue>, g: Board, high: Board)
    requires Settled(n, g) && Settled(n, high)
    requires forall c :: c in g && !OutsideCell(n, xs, c) ==> g[c] <= high[c]
    requires forall a, b, w :: OutsideCell(n, xs, a) && a in g && g[a] == {w} && Peers(n, a, b) ==> w !in high[b]
    ensures Settled(n, Restored(n, xs, g, high))
  {
    hide OutsideCell, Peers, Side;
    var k := Restored(n, xs, g, high);
    forall a, b, w | a in k && b in k && Peers(n, a, b) && w in k[a] && w in k[b]
      ensures |k[a]| != 1
    {
      if |k[a]| == 1 {
        SingletonHasOne(k[a]);
        SharedValue(n, xs, g, high, a, b, w);
      }
    }
  }

  lemma SharedValue(n: Dimension, xs: seq<Clue>, g: Board, high: Board, a: Cell, b: Cell, w: Value)
    requires Settled(n, g) && Settled(n, high) && Peers(n, a, b)
    requires forall c :: c in g && !OutsideCell(n, xs, c) ==> g[c] <= high[c]
    requires OutsideCell(n, xs, a) && g[a] == {w} ==> w !in high[b]
    requires Restored(n, xs, g, high)[a] == {w}
    ensures w !in Restored(n, xs, g, high)[b]
  {
    hide OutsideCell;
    if OutsideCell(n, xs, a) {
      assert w in g[a];
    } else {
      assert w in high[a];
      SubsetOfSingleton(g[a], w);
      assert w in g[a];
    }
  }

  lemma RestoredBelowInside(n: Dimension, xs: seq<Clue>)
    requires CluesIn(n, xs) && OnePerCell(xs) && !Clashing(n, xs) && Possible(InsideResult(n, xs))
    requires NothingLost(n, xs)
    ensures Below(Restored(n, xs, InsideResult(n, xs), Highest(n, xs)), InsideResult(n, xs))
  {
    hide PlaceAll, InsideResult, Highest, Peers, PeerConsistent, Possible;
    HighestFits(n, xs);
    InsideIsFresh(n, xs);
    var g, high := InsideResult(n, xs), Highest(n, xs);
    RestoredSettled(n, xs, g, high);
    RestoredFitsInside(n, xs, g, high);
    InsideKeepsSettled(n, xs, Restored(n, xs, g, high));
  }

  lemma RestoredFitsInside(n: Dimension, xs: seq<Clue>, g: Board, high: Board)
    requires Below(g, Fresh(n)) && OnePerCell(xs) && Fits(n, high, xs)
    ensures Below(Restored(n, xs, g, high), Fresh(n))
    ensures forall x :: x in xs && x.value <= Side(n) ==> Restored(n, xs, g, high)[x.cell] == {x.value}
  {
    hide PeerConsistent;
    forall x | x in xs && x.value <= Side(n)
      ensures !OutsideCell(n, xs, x.cell)
    {
      if y :| y in xs && Side(n) < y.value && y.cell == x.cell {
        OnePerCellMembers(xs, x, y);
      }
    }
  }

  /** What the clues in range leave lies above every settled grid in range that meets them. */
  lemma InsideKeepsSettled(n: Dimension, xs: seq<Clue>, k: Board)
    requires CluesIn(n, xs) && OnePerCell(xs) && Settled(n, k) && Below(k, Fresh(n))
    requires forall x :: x in xs && x.value <= Side(n) ==> x.cell in k && k[x.cell] == {x.value}
    ensures Below(k, InsideResult(n, xs))
  {
    hide PlaceAll;
    PartsIn(n, xs);
    PlaceAllKeepsSettled(n, k, Fresh(n), Inside(n, xs));
  }

  /** If nothing is lost, every order leaves the highest result. */
  lemma NothingLostGivesHighest(n: Dimension, xs: seq<Clue>, ys: seq<Clue>)
    requires CluesIn(n, xs) && OnePerCell(xs) && !Clashing(n, xs) && Possible(InsideResult(n, xs))
    requires NothingLost(n, xs) && Rearranged(n, xs, ys)
    ensures PlaceAll(n, Fresh(n), ys) == Highest(n, xs) && Possible(PlaceAll(n, Fresh(n), ys))
  {
    hide PlaceAll, InsideResult, Highest, Peers, PeerConsistent, NothingLost, Possible;
    HighestFits(n, xs);
    RestoredBelowInside(n, xs);
    AboveInside(n, xs, ys);
    BelowHighest(n, xs, ys);
    HighestBelow(n, xs, InsideResult(n, xs), Highest(n, xs), PlaceAll(n, Fresh(n), ys));
    BelowBothWays(Highest(n, xs), PlaceAll(n, Fresh(n), ys));
  }

  lemma HighestBelow(n: Dimension, xs: seq<Clue>, g: Board, high: Board, r: Board)
    requires WellFormed(n, g) && WellFormed(n, r) && Fits(n, high, xs) && Fits(n, r, xs)
    requires Below(Restored(n, xs, g, high), g)
    requires forall c :: c in g && !OutsideCell(n, xs, c) ==> g[c] <= r[c]
    ensures Below(high, r)
  {
    hide PeerConsistent, Side;
    forall c | c in r
      ensures high[c] <= r[c]
    {
      if x :| x in xs && Side(n) < x.value && x.cell == c {
        assert high[c] == {x.value} == r[c];
      } else {
        assert Restored(n, xs, g, high)[c] == high[c];
      }
    }
  }

  /** Clues that clash, or have no highest result, are impossible in every order. */
  lemma NoHighestNoResult(n: Dimension, xs: seq<Clue>)
    requires CluesIn(n, xs) && OnePerCell(xs) && !Possible(Highest(n, xs))
    ensures OrderFree(n, xs)
  {
    hide PlaceAll, Highest, Possible;
    assert Rearranged(n, xs, xs);
    forall ys | Rearranged(n, xs, ys)
      ensures !Possible(PlaceAll(n, Fresh(n), ys))
    {
      if Possible(PlaceAll(n, Fresh(n), ys)) {
        BelowHighest(n, xs, ys);
      }
    }
  }

  lemma HighestHasNoClash(n: Dimension, xs: seq<Clue>)
    requires CluesIn(n, xs) && OnePerCell(xs) && Possible(Highest(n, xs))
    ensures !Clashing(n, xs)
  {
    hide PlaceAll;
    ExtremeOrders(n, xs);
    BelowHighest(n, xs, OutsideFirst(n, xs));
    SettledMeetsNoClash(n, Highest(n, xs), xs);
  }

  /**
   The exact condition for the order of clues not to matter: either no order has a possible result, or no value is lost
   to a cell that is decided and then overwritten. It is stated for clues whose part in range is possible on its own, or
   that have no possible result even with the clues out of range first.
   */
  lemma OrderFreeIff(n: Dimension, xs: seq<Clue>)
    requires CluesIn(n, xs) && OnePerCell(xs)
    requires Possible(InsideResult(n, xs)) || !Possible(Highest(n, xs))
    ensures OrderFree(n, xs) <==> (Possible(Highest(n, xs)) ==> NothingLost(n, xs))
  {
    hide PlaceAll, Highest, InsideResult, Possible, NothingLost, Clashing;
    if !Possible(Highest(n, xs)) {
      NoHighestNoResult(n, xs);
    } else {
      HighestHasNoClash(n, xs);
      if NothingLost(n, xs) {
        assert Rearranged(n, xs, xs);
        forall ys | Rearranged(n, xs, ys)
          ensures PlaceAll(n, Fresh(n), ys) == Highest(n, xs)
        {
          NothingLostGivesHighest(n, xs, ys);
        }
      } else {
        LostValueBreaksOrder(n, xs);
      }
    }
  }

  /** Clues in range never depend on their order. */
  lemma InRangeOrderFree(n: Dimension, xs: seq<Clue>)
    requires CluesIn(n, xs) && OnePerCell(xs) && forall x :: x in xs ==> x.value <= Side(n)
    ensures OrderFree(n, xs)
  {
    hide PlaceAll, Possible;
    FreshSettled(n);
    forall x | x in xs
      ensures x.cell in Fresh(n) && x.value in Fresh(n)[x.cell]
    {
      var i :| 0 <= i < |xs| && xs[i] == x;
    }
    forall ys | Rearranged(n, xs, ys)
      ensures Possible(PlaceAll(n, Fresh(n), ys)) <==> Possible(PlaceAll(n, Fresh(n), xs))
      ensures Possible(PlaceAll(n, Fresh(n), xs)) ==> PlaceAll(n, Fresh(n), ys) == PlaceAll(n, Fresh(n), xs)
    {
      PlacementOrderIrrelevant(n, Fresh(n), xs, ys);
    }
  }
}
