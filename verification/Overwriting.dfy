/**
 Two examples on a grid of dimension 2 in which a clue out of range overwrites a cell that propagation has decided, or
 would have decided in another order.
 */
module Overwriting {
  import opened Geometry
  import opened Candidates
  import opened Options
  import opened Propagation
  import opened Clues
  import opened Lines
  import opened Orders
  import opened Reparsing

  // The top row, the cell below its end, and a cell in the sector below that.
  const A: Cell := Cell(0, 0)
  const B: Cell := Cell(1, 0)
  const C: Cell := Cell(2, 0)
  const D: Cell := Cell(3, 0)
  const E: Cell := Cell(3, 1)
  const F: Cell := Cell(2, 2)

  /** Two values for each of the other cells. */
  function Pair(c: Cell): (Value, Value) {
    if c.row == 0 || (c.row == 1 && c.col < 2) then (3, 4)
    else if c.row >= 2 && c.col == 0 then (2, 3)
    else if c.row >= 2 && c.col == 1 then (1, 3)
    else (1, 2)
  }

  /** A grid with 1 and 2 in the first cells, the given candidates in the cells named above, and two values elsewhere. */
  ghost function Sketch(n: Dimension, atC: set<Value>, atD: set<Value>, atE: set<Value>, atF: set<Value>): (k: Board)
    requires n == 2
    ensures WellFormed(n, k)
    ensures A in k && B in k && C in k && D in k && E in k && F in k
    ensures k[A] == {1} && k[B] == {2} && k[C] == atC && k[D] == atD && k[E] == atE && k[F] == atF
    ensures forall c :: c in k && c !in {A, B, C, D, E, F} ==> k[c] == {Pair(c).0, Pair(c).1}
  {
    map c | c in CellSet(n) ::
      if c == A then {1} else if c == B then {2} else if c == C then atC else if c == D then atD
      else if c == E then atE else if c == F then atF else {Pair(c).0, Pair(c).1}
  }

  /** The candidates for which a sketch is settled: the third cell open or 3, the fourth open, 4 or 9. */
  predicate Fitting(atC: set<Value>, atD: set<Value>, atE: set<Value>, atF: set<Value>) {
    || (atC == {3, 4} && atD == {3, 4} && atE == {1, 2, 4} && atF == {1, 4})
    || (atC == {3} && atD == {4} && atE == {1, 2} && atF == {4})
    || (atC == {3} && atD == {9} && atE == {1, 2, 4} && atF == {4})
  }

  lemma TwoMembers(s: set<Value>, u: Value, v: Value)
    requires u in s && v in s && u != v
    ensures s != {} && |s| != 1
  {
    if |s| == 1 {
      SingletonHasOne(s);
    }
  }

  /** A cell with one candidate is one of those named, and no peer has its value. */
  lemma SketchPeers(n: Dimension, atC: set<Value>, atD: set<Value>, atE: set<Value>, atF: set<Value>, a: Cell, b: Cell, w: Value)
    requires n == 2 && Fitting(atC, atD, atE, atF) && Peers(n, a, b)
    requires w in Sketch(n, atC, atD, atE, atF)[a] && a in {A, B, C, D, F} && |Sketch(n, atC, atD, atE, atF)[a]| == 1
    ensures w !in Sketch(n, atC, atD, atE, atF)[b]
  {
  }

  lemma SketchSettled(n: Dimension, atC: set<Value>, atD: set<Value>, atE: set<Value>, atF: set<Value>)
    requires n == 2 && Fitting(atC, atD, atE, atF)
    ensures Settled(n, Sketch(n, atC, atD, atE, atF))
  {
    hide Peers, Sketch;
    var k := Sketch(n, atC, atD, atE, atF);
    forall c | c in k
      ensures k[c] != {} && (c !in {A, B, C, D, F} ==> |k[c]| != 1)
    {
      if c !in {A, B, C, D, F} {
        if c == E {
          TwoMembers(k[c], 1, 2);
        } else {
          TwoMembers(k[c], Pair(c).0, Pair(c).1);
        }
      }
    }
    forall a, b, w | a in k && b in k && Peers(n, a, b) && w in k[a] && w in k[b]
      ensures |k[a]| != 1
    {
      if |k[a]| == 1 {
        SketchPeers(n, atC, atD, atE, atF, a, b, w);
      }
    }
  }

  lemma NamedCells(n: Dimension)
    requires n == 2
    ensures |AllCells(n)| == 16
    ensures At(n, 0, A) && At(n, 1, B) && At(n, 2, C) && At(n, 3, D) && At(n, 7, E) && At(n, 10, F)
    ensures Peers(n, A, D) && Peers(n, B, D) && Peers(n, C, D) && Peers(n, D, E)
    ensures Peers(n, A, C) && Peers(n, B, C) && Peers(n, F, C)
  {
  }

  lemma SketchBelowFresh(n: Dimension, atC: set<Value>, atD: set<Value>, atE: set<Value>, atF: set<Value>, c: Cell)
    requires n == 2 && Fitting(atC, atD, atE, atF) && InGrid(n, c) && (c == D ==> atD != {9})
    ensures Sketch(n, atC, atD, atE, atF)[c] <= Fresh(n)[c]
  {
  }

  lemma FreshCell(n: Dimension, c: Cell)
    requires n == 2 && InGrid(n, c)
    ensures Fresh(n)[c] == {1, 2, 3, 4}
  {
    var four: set<Value> := {1, 2, 3, 4};
    assert Digits(n) <= four && four <= Digits(n);
  }

  /** Three decided peers leave a cell one of four values. */
  lemma OneLeft(n: Dimension, s: Board, a: Cell, b: Cell, c: Cell, d: Cell, u: Value, v: Value, w: Value, last: Value)
    requires WellFormed(n, s) && PeerConsistent(n, s)
    requires Peers(n, a, d) && Peers(n, b, d) && Peers(n, c, d) && s[a] == {u} && s[b] == {v} && s[c] == {w}
    requires s[d] <= {u, v, w, last} && last in s[d]
    ensures s[d] == {last}
  {
    hide Peers, PeerConsistent;
    ValueTaken(n, s, a, d, u);
    ValueTaken(n, s, b, d, v);
    ValueTaken(n, s, c, d, w);
  }

  lemma ValueTaken(n: Dimension, s: Board, a: Cell, d: Cell, u: Value)
    requires WellFormed(n, s) && PeerConsistent(n, s) && Peers(n, a, d) && s[a] == {u}
    ensures u !in s[d]
  {
    assert u in s[a];
  }

  // ----- the order of clues

  function ExampleClues(): seq<Clue> {
    [Clue(A, 1), Clue(B, 2), Clue(C, 3), Clue(D, 9)]
  }

  lemma ExampleCluesIn(n: Dimension, xs: seq<Clue>)
    requires n == 2 && xs == ExampleClues()
    ensures CluesIn(n, xs) && OnePerCell(xs)
    ensures forall x :: x in xs <==> x in {Clue(A, 1), Clue(B, 2), Clue(C, 3), Clue(D, 9)}
  {
  }

  /** A sketch in which the fourth cell has the value it is decided for. */
  lemma DecidedSketch(n: Dimension) returns (k: Board)
    requires n == 2
    ensures k == Sketch(n, {3}, {4}, {1, 2}, {4}) && Settled(n, k) && Below(k, Fresh(n))
  {
    hide PeerConsistent;
    k := Sketch(n, {3}, {4}, {1, 2}, {4});
    SketchSettled(n, {3}, {4}, {1, 2}, {4});
    forall c | c in k
      ensures k[c] <= Fresh(n)[c]
    {
      SketchBelowFresh(n, {3}, {4}, {1, 2}, {4}, c);
    }
  }

  /** In a grid with 1, 2 and 3 in the top row the fourth cell is decided. */
  lemma FourthDecided(n: Dimension, g: Board, k: Board)
    requires n == 2 && WellFormed(n, g) && PeerConsistent(n, g) && Below(k, g) && D in k && k[D] == {4}
    requires InGrid(n, D) && InGrid(n, A) && InGrid(n, B) && InGrid(n, C) && g[D] <= Fresh(n)[D]
    requires g[A] == {1} && g[B] == {2} && g[C] == {3}
    ensures g[D] == {4}
  {
    hide PeerConsistent, Peers;
    NamedCells(n);
    FreshCell(n, D);
    assert 4 in k[D];
    OneLeft(n, g, A, B, C, D, 1, 2, 3, 4);
  }

  lemma FourMeets(n: Dimension, xs: seq<Clue>, k: Board)
    requires n == 2 && xs == ExampleClues() && k == Sketch(n, {3}, {4}, {1, 2}, {4})
    ensures forall x :: x in xs && x.value <= Side(n) ==> x.cell in k && k[x.cell] == {x.value}
  {
    hide Sketch, Side;
    SideOfTwo(n);
  }

  /** The clues in range decide the last cell of the top row. */
  lemma ExampleDecides(n: Dimension, xs: seq<Clue>)
    requires n == 2 && xs == ExampleClues() && CluesIn(n, xs) && OnePerCell(xs)
    ensures Possible(InsideResult(n, xs)) && D in InsideResult(n, xs) && InsideResult(n, xs)[D] == {4}
  {
    hide InsideResult, PeerConsistent, Peers, Sketch, Side, Fresh, Possible;
    var k := DecidedSketch(n);
    FourMeets(n, xs, k);
    InsideKeepsSettled(n, xs, k);
    PossibleAbove(k, InsideResult(n, xs));
    InsideFits(n, xs, xs);
    ThreeMet(n, xs, InsideResult(n, xs));
    FourthDecided(n, InsideResult(n, xs), k);
  }

  lemma ThreeMet(n: Dimension, xs: seq<Clue>, g: Board)
    requires n == 2 && xs == ExampleClues() && FitsInside(n, g, xs)
    ensures InGrid(n, D) && InGrid(n, A) && InGrid(n, B) && InGrid(n, C)
    ensures g[A] == {1} && g[B] == {2} && g[C] == {3} && g[D] <= Fresh(n)[D]
  {
    hide PeerConsistent, Fresh;
    ExampleCells(n);
    assert xs[0] in xs && xs[1] in xs && xs[2] in xs;
  }

  lemma SideOfTwo(n: Dimension)
    requires n == 2
    ensures Side(n) == 4
  {
  }

  lemma ExampleCells(n: Dimension)
    requires n == 2
    ensures InGrid(n, A) && InGrid(n, B) && InGrid(n, C) && InGrid(n, D) && InGrid(n, E) && InGrid(n, F)
  {
  }

  lemma NineFits(n: Dimension, xs: seq<Clue>, k: Board)
    requires n == 2 && xs == ExampleClues() && k == Sketch(n, {3}, {9}, {1, 2, 4}, {4})
    ensures Fits(n, k, xs)
  {
    hide PeerConsistent, Peers, Sketch, Side, Possible;
    ExampleCluesIn(n, xs);
    SketchSettled(n, {3}, {9}, {1, 2, 4}, {4});
    forall c | c in k && c != D
      ensures k[c] <= Fresh(n)[c]
    {
      SketchBelowFresh(n, {3}, {9}, {1, 2, 4}, {4}, c);
    }
    SideOfTwo(n);
    assert Clue(D, 9) in xs;
  }

  /** With the clue out of range first, the cell below keeps the value. */
  lemma ExampleHighest(n: Dimension, xs: seq<Clue>)
    requires n == 2 && xs == ExampleClues() && CluesIn(n, xs) && OnePerCell(xs)
    ensures Possible(Highest(n, xs)) && E in Highest(n, xs) && 4 in Highest(n, xs)[E]
  {
    hide Fits, Sketch, PlaceAll, Side;
    var k := Sketch(n, {3}, {9}, {1, 2, 4}, {4});
    NineFits(n, xs, k);
    FitsBelowHighest(n, k, xs);
    FitsPossible(n, k, xs);
    PossibleAbove(k, Highest(n, xs));
  }

  /** So the order of these clues matters. */
  lemma OrderMatters(n: Dimension, xs: seq<Clue>)
    requires n == 2 && xs == ExampleClues()
    ensures CluesIn(n, xs) && OnePerCell(xs) && Possible(InsideResult(n, xs)) && !NothingLost(n, xs) && !OrderFree(n, xs)
  {
    hide InsideResult, Highest, PeerConsistent, Possible, OrderFree;
    ExampleCluesIn(n, xs);
    ExampleDecides(n, xs);
    ExampleHighest(n, xs);
    NamedCells(n);
    assert Clue(D, 9) in xs;
    OrderFreeIff(n, xs);
  }

  // ----- the state line

  /** A settled grid that has the value of each digit of a part of a line survives that part. */
  lemma {:induction false} KeptOver(n: Dimension, k: Board, line: string, i: nat, j: nat)
    requires FullLine(n, line) && i <= j <= |line| && Settled(n, k) && Below(k, After(n, line, i))
    requires forall m :: i <= m < j && !Blank(line[m]) ==> k[ClueAt(n, line, m).cell] == {ClueAt(n, line, m).value}
    ensures Below(k, After(n, line, j))
    decreases j
  {
    hide After, PeerConsistent, ClueAt, Blank;
    if i < j {
      KeptOver(n, k, line, i, j - 1);
      AfterNext(n, line, j - 1, j);
      if !Blank(line[j - 1]) {
        var x := ClueAt(n, line, j - 1);
        PlaceKeepsSettled(n, k, After(n, line, j - 1), x.cell, x.value);
      }
    }
  }

  /** The line 12.9......4....., with 1 and 2 at the start of the top row, 9 at its end, and 4 in the third row. */
  predicate IsExample(line: string) {
    && |line| == 16
    && line[0] == '1' && line[1] == '2' && line[3] == '9' && line[10] == '4'
    && forall k :: 0 <= k < 16 && k != 0 && k != 1 && k != 3 && k != 10 ==> line[k] == '.'
  }

  lemma ExampleLine()
    ensures IsExample("12.9......4.....")
  {
  }

  lemma ExampleDigits(n: Dimension, line: string)
    requires n == 2 && IsExample(line)
    ensures FullLine(n, line)
    ensures forall m :: 0 <= m < |line| && !Blank(line[m]) ==> m in {0, 1, 3, 10}
    ensures !Blank(line[0]) && !Blank(line[1]) && !Blank(line[3]) && !Blank(line[10]) && Blank(line[2])
    ensures ClueAt(n, line, 0) == Clue(A, 1) && ClueAt(n, line, 1) == Clue(B, 2)
    ensures ClueAt(n, line, 3) == Clue(D, 9) && ClueAt(n, line, 10) == Clue(F, 4)
  {
    NamedCells(n);
  }

  lemma FewKept(n: Dimension, line: string, few: Board)
    requires n == 2 && IsExample(line) && FullLine(n, line)
    requires Settled(n, few) && Below(few, Fresh(n)) && A in few && B in few && few[A] == {1} && few[B] == {2}
    ensures Below(few, After(n, line, 3))
  {
    hide After, PeerConsistent, IsExample, ClueAt, Blank, FullLine, Fresh, Possible;
    ExampleDigits(n, line);
    AfterStart(n, line);
    KeptOver(n, few, line, 0, 3);
  }

  lemma ManyKept(n: Dimension, line: string, few: Board, many: Board)
    requires n == 2 && IsExample(line) && FullLine(n, line) && Below(few, After(n, line, 3)) && Settled(n, many)
    requires D in many && F in many && many[D] == {9} && many[F] == {4}
    requires forall c :: c in many && c != D ==> many[c] <= few[c]
    ensures Below(many, After(n, line, 16))
  {
    hide After, PeerConsistent, IsExample, ClueAt, Blank, FullLine, Place, Possible;
    ExampleDigits(n, line);
    OverwritingKeeps(n, many, After(n, line, 3), ClueAt(n, line, 3));
    AfterNext(n, line, 3, 4);
    RestKept(n, line, many);
  }

  lemma RestKept(n: Dimension, line: string, many: Board)
    requires n == 2 && IsExample(line) && FullLine(n, line) && Below(many, After(n, line, 4)) && Settled(n, many)
    requires F in many && many[F] == {4}
    ensures Below(many, After(n, line, 16))
  {
    hide After, PeerConsistent, IsExample, ClueAt, Blank, Possible, Below;
    ExampleDigits(n, line);
    KeptOver(n, many, line, 4, 16);
  }

  lemma FewAndMany(n: Dimension) returns (few: Board, many: Board)
    requires n == 2
    ensures Settled(n, few) && Below(few, Fresh(n)) && A in few && B in few && few[A] == {1} && few[B] == {2}
    ensures many == Sketch(n, {3}, {9}, {1, 2, 4}, {4}) && Settled(n, many)
    ensures forall c :: c in many && c != D ==> many[c] <= few[c]
  {
    hide PeerConsistent, Side, Possible;
    few, many := Sketch(n, {3, 4}, {3, 4}, {1, 2, 4}, {1, 4}), Sketch(n, {3}, {9}, {1, 2, 4}, {4});
    SketchSettled(n, {3, 4}, {3, 4}, {1, 2, 4}, {1, 4});
    SketchSettled(n, {3}, {9}, {1, 2, 4}, {4});
    forall c | c in few
      ensures few[c] <= Fresh(n)[c]
    {
      SketchBelowFresh(n, {3, 4}, {3, 4}, {1, 2, 4}, {1, 4}, c);
    }
  }

  /** Before the digit out of range the last cell of the top row is open, so that the cell below loses nothing. */
  lemma ExampleKeeps(n: Dimension, line: string) returns (many: Board)
    requires n == 2 && IsExample(line) && FullLine(n, line)
    ensures many == Sketch(n, {3}, {9}, {1, 2, 4}, {4}) && Settled(n, many) && Below(many, After(n, line, 16))
  {
    hide After, PeerConsistent, Below, IsExample;
    var few;
    few, many := FewAndMany(n);
    FewKept(n, line, few);
    ManyKept(n, line, few, many);
  }

  predicate ExampleDecided(g: Board) {
    && A in g && B in g && C in g && D in g && E in g && F in g
    && g[A] == {1} && g[B] == {2} && g[C] == {3} && g[D] == {9} && g[F] == {4} && 4 in g[E] && |g[E]| != 1
    && forall c :: c in g && c !in {A, B, C, D, F} ==> |g[c]| != 1
  }

  /** The grid of the example line: three cells of the top row have their digits, and the cell below the end has two. */
  lemma ExampleGrid(n: Dimension, line: string, g: Board)
    requires n == 2 && IsExample(line) && FullLine(n, line) && g == After(n, line, 16)
    ensures Possible(g) && ExampleDecided(g)
  {
    hide After, PeerConsistent, IsExample, Peers, Sketch, Possible;
    var many := ExampleKeeps(n, line);
    PossibleAbove(many, g);
    ExampleBounds(n, line, g);
    ExampleBetween(n, many, g);
  }

  lemma ExampleBounds(n: Dimension, line: string, g: Board)
    requires n == 2 && IsExample(line) && FullLine(n, line) && g == After(n, line, 16)
    ensures A in g && B in g && C in g && D in g && E in g && F in g && PeerConsistent(n, g)
    ensures g[A] <= {1} && g[B] <= {2} && g[D] <= {9} && g[F] <= {4} && g[C] <= {1, 2, 3, 4}
  {
    hide After, PeerConsistent, IsExample;
    ExampleDigits(n, line);
    ExampleCells(n);
    AfterConsistent(n, line, 16);
    AfterClue(n, line, 0, 16);
    AfterClue(n, line, 1, 16);
    AfterClue(n, line, 3, 16);
    AfterClue(n, line, 10, 16);
    ThirdBound(n, line, g);
  }

  lemma ThirdBound(n: Dimension, line: string, g: Board)
    requires n == 2 && IsExample(line) && FullLine(n, line) && g == After(n, line, 16)
    ensures C in g && g[C] <= {1, 2, 3, 4}
  {
    hide After;
    NamedCells(n);
    AfterStart(n, line);
    AfterShrinks(n, line, 0, 16, 2, C);
    FreshCell(n, C);
  }

  lemma ExampleBetween(n: Dimension, many: Board, g: Board)
    requires n == 2 && many == Sketch(n, {3}, {9}, {1, 2, 4}, {4}) && Below(many, g) && PeerConsistent(n, g)
    requires A in g && B in g && C in g && D in g && E in g && F in g
    requires g[A] <= {1} && g[B] <= {2} && g[D] <= {9} && g[F] <= {4} && g[C] <= {1, 2, 3, 4}
    ensures ExampleDecided(g)
  {
    hide PeerConsistent, Peers, Sketch;
    assert many[A] == {1} && many[B] == {2} && many[D] == {9} && many[F] == {4};
    forall c | c in g && c !in {A, B, C, D, F}
      ensures |g[c]| != 1
    {
      if c == E {
        TwoMembers(g[c], 1, 2);
      } else {
        TwoMembers(g[c], Pair(c).0, Pair(c).1);
      }
    }
    NamedCells(n);
    assert 3 in many[C];
    OneLeft(n, g, A, B, F, C, 1, 2, 4, 3);
  }

  /** In the printed line the third cell is given as well, so that the fourth is decided before it is overwritten. */
  lemma AgainDecides(n: Dimension, again: string, g: Board)
    requires n == 2 && Shows(n, again, g) && InGrid(n, A) && InGrid(n, B) && InGrid(n, C) && InGrid(n, D)
    requires g[A] == {1} && g[B] == {2} && g[C] == {3}
    ensures After(n, again, 3)[D] == {4}
  {
    hide After, PeerConsistent, Shows, Sketch, Peers, ClueAt, Blank, FullLine;
    var k := DecidedSketch(n);
    ThreeShown(n, again, g);
    ThreeRead(n, again, k);
    AfterConsistent(n, again, 3);
    FourthDecided(n, After(n, again, 3), k);
  }

  lemma ThreeRead(n: Dimension, again: string, k: Board)
    requires n == 2 && FullLine(n, again) && |again| == 16 && !Blank(again[0]) && !Blank(again[1]) && !Blank(again[2])
    requires ClueAt(n, again, 0) == Clue(A, 1) && ClueAt(n, again, 1) == Clue(B, 2) && ClueAt(n, again, 2) == Clue(C, 3)
    requires Settled(n, k) && Below(k, Fresh(n)) && A in k && B in k && C in k && D in k
    requires k[A] == {1} && k[B] == {2} && k[C] == {3}
    ensures Below(k, After(n, again, 3))
    ensures After(n, again, 3)[A] == {1} && After(n, again, 3)[B] == {2} && After(n, again, 3)[C] == {3}
    ensures After(n, again, 3)[D] <= Fresh(n)[D]
  {
    hide After, PeerConsistent, Peers, ClueAt, Blank, FullLine, Fresh, Possible;
    AfterStart(n, again);
    KeptOver(n, k, again, 0, 3);
    AfterClue(n, again, 0, 3);
    AfterClue(n, again, 1, 3);
    AfterClue(n, again, 2, 3);
    FourthShrinks(n, again);
  }

  lemma FourthShrinks(n: Dimension, again: string)
    requires n == 2 && FullLine(n, again)
    ensures D in After(n, again, 0) && After(n, again, 3)[D] <= After(n, again, 0)[D]
  {
    hide After;
    NamedCells(n);
    AfterShrinks(n, again, 0, 3, 3, D);
  }

  lemma ThreeShown(n: Dimension, again: string, g: Board)
    requires n == 2 && Shows(n, again, g) && InGrid(n, A) && InGrid(n, B) && InGrid(n, C)
    requires g[A] == {1} && g[B] == {2} && g[C] == {3}
    ensures FullLine(n, again) && |again| == 16 && !Blank(again[0]) && !Blank(again[1]) && !Blank(again[2])
    ensures ClueAt(n, again, 0) == Clue(A, 1) && ClueAt(n, again, 1) == Clue(B, 2) && ClueAt(n, again, 2) == Clue(C, 3)
  {
    NamedCells(n);
  }

  /** The decided cells in range are possible on their own. */
  lemma AgainInsidePossible(n: Dimension, again: string, g: Board)
    requires n == 2 && Shows(n, again, g) && ExampleDecided(g)
    ensures InsidePossible(n, again)
  {
    hide InsideResult, PeerConsistent, LineClues, Sketch;
    LineCluesExact(n, again);
    var clues := LineClues(n, again);
    var k := DecidedSketch(n);
    forall x | x in clues && x.value <= Side(n)
      ensures x.cell in k && k[x.cell] == {x.value}
    {
      var m := MemberClueAt(n, again, x);
      assert At(n, m, x.cell);
      assert g[x.cell] == {x.value};
      assert x.value in g[x.cell];
    }
    InsideKeepsSettled(n, clues, k);
    PossibleAbove(k, InsideResult(n, clues));
  }

  lemma LostAgain(n: Dimension, line: string, g: Board, again: string)
    requires n == 2 && IsExample(line) && Reprinted(n, line, g, again) && ExampleDecided(g)
    ensures !NothingLostAgain(n, g, again)
  {
    hide After, PeerConsistent, IsExample, ClueAt, Possible;
    ExampleDigits(n, line);
    OldClueStays(n, line, g, again, 3);
    ExampleCells(n);
    AgainDecides(n, again, g);
    NamedCells(n);
    assert After(n, again, 3)[ClueAt(n, again, 3).cell] == {4};
    assert Peers(n, ClueAt(n, again, 3).cell, E) && |g[E]| != 1 && 4 in g[E];
  }

  /** So the state line of the grid parsed from the example line is parsed as another grid. */
  lemma StateLineLosesOrder(n: Dimension, line: string) returns (g: Board, again: string)
    requires n == 2 && line == "12.9......4....."
    ensures Reprinted(n, line, g, again) && InsidePossible(n, again) && !NothingLostAgain(n, g, again)
    ensures Parse(line) == Parsed(n, g) && StateLine(n, g) == Some(again)
    ensures Parse(again) != Parse(line)
  {
    ExampleLine();
    g, again := ExampleReprinted(n, line);
    AgainInsidePossible(n, again, g);
    LostAgain(n, line, g, again);
    StateLineNormalFormIff(n, line, g, again);
  }

  lemma ExampleReprinted(n: Dimension, line: string) returns (g: Board, again: string)
    requires n == 2 && IsExample(line)
    ensures Parse(line) == Parsed(n, g) && StateLine(n, g) == Some(again)
    ensures Reprinted(n, line, g, again) && ExampleDecided(g)
  {
    hide After, PeerConsistent, Parse, IsExample, StateLine;
    ExampleDigits(n, line);
    AfterAll(n, line);
    g := After(n, line, 16);
    ExampleGrid(n, line, g);
    var m, h;
    m, h, again := ParsedIsReprinted(line);
  }
}
