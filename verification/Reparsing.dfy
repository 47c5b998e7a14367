/**
 Printing a parsed grid and parsing the line again. The new line has the clues of the old one and one more for every
 cell that they decided. With clues in range this changes nothing; with a clue out of range the further clues can decide
 its cell before it is overwritten, and take a value from its peers. The exact condition compares the two runs character
 by character.
 */
module Reparsing {
  import opened Geometry
  import opened Candidates
  import opened Options
  import opened Propagation
  import opened Clues
  import opened Lines
  import opened Orders

  // ----- the grid after a part of a line

  /** The grid after the first i characters of a line. */
  ghost function After(n: Dimension, line: string, i: nat): (g: Board)
    requires FullLine(n, line) && i <= |line|
    ensures WellFormed(n, g)
  {
    LineCluesExact(n, line[..i]);
    PlaceAll(n, Fresh(n), LineClues(n, line[..i]))
  }

  predicate FullLine(n: Dimension, line: string) {
    |line| == Side(n) * Side(n) && Readable(line)
  }

  /** The clue that a digit of a line stands for. */
  function ClueAt(n: Dimension, line: string, i: nat): (x: Clue)
    requires FullLine(n, line) && i < |line| && !Blank(line[i])
    ensures InGrid(n, x.cell)
  {
    CellAt(n, i);
    Clue(AllCells(n)[i], DigitValue(line[i]))
  }

  lemma AfterNext(n: Dimension, line: string, i: nat, next: nat)
    requires FullLine(n, line) && i < |line| && next == i + 1
    ensures Blank(line[i]) ==> After(n, line, next) == After(n, line, i)
    ensures !Blank(line[i]) ==>
      After(n, line, next) == Place(n, After(n, line, i), ClueAt(n, line, i).cell, ClueAt(n, line, i).value)
  {
    hide PlaceAll, LineClues, Place;
    PlaceNextCharacter(n, line, i);
  }

  lemma AfterStart(n: Dimension, line: string)
    requires FullLine(n, line)
    ensures After(n, line, 0) == Fresh(n)
  {
    assert line[..0] == "";
  }

  lemma AfterAll(n: Dimension, line: string)
    requires FullLine(n, line) && n <= 3
    ensures Parse(line) == Parsed(n, After(n, line, |line|))
  {
    hide PlaceAll, LineClues;
    assert line[..|line|] == line;
    ParseOfReadableLine(n, line);
  }

  lemma AfterConsistent(n: Dimension, line: string, i: nat)
    requires FullLine(n, line) && i <= |line|
    ensures PeerConsistent(n, After(n, line, i))
  {
    hide PlaceAll, LineClues, PeerConsistent;
    FreshSettled(n);
    LineCluesExact(n, line[..i]);
    FreshConsistent(n);
    PlaceAllConsistent(n, Fresh(n), LineClues(n, line[..i]));
  }

  lemma FreshConsistent(n: Dimension)
    ensures PeerConsistent(n, Fresh(n))
  {
    FreshSettled(n);
  }

  /** A cell changes only by shrinking, unless the line has a clue for it here. */
  lemma AfterNextShrinks(n: Dimension, line: string, i: nat, next: nat, c: Cell)
    requires FullLine(n, line) && i < |line| && next == i + 1 && InGrid(n, c)
    requires !Blank(line[i]) ==> AllCells(n)[i] != c
    ensures After(n, line, next)[c] <= After(n, line, i)[c]
  {
    hide PlaceAll, LineClues, After, RemoveRelated;
    AfterNext(n, line, i, next);
  }

  /** The place of a cell in a line. */
  predicate At(n: Dimension, m: nat, c: Cell) {
    InGrid(n, c) && m < Side(n) * Side(n) && AllCells(n)[m] == c
  }

  lemma {:induction false} AfterShrinks(n: Dimension, line: string, i: nat, j: nat, m: nat, c: Cell)
    requires FullLine(n, line) && i <= j <= |line| && At(n, m, c) && (Blank(line[m]) || !(i <= m < j))
    ensures After(n, line, j)[c] <= After(n, line, i)[c]
    decreases j
  {
    hide After, AllCells;
    if i < j {
      var k := j - 1;
      AfterShrinks(n, line, i, k, m, c);
      if m != k {
        CellsDiffer(n, line, m, k);
      }
      AfterNextShrinks(n, line, k, j, c);
    }
  }

  lemma CellsDiffer(n: Dimension, line: string, m: nat, i: nat)
    requires FullLine(n, line) && m < |line| && i < |line| && m != i
    ensures AllCells(n)[i] != AllCells(n)[m]
  {
    CellAt(n, m);
    CellAt(n, i);
  }

  /** A clue's cell holds at most the clue, once it has been read. */
  lemma AfterClue(n: Dimension, line: string, m: nat, i: nat)
    requires FullLine(n, line) && m < i <= |line| && !Blank(line[m])
    ensures After(n, line, i)[ClueAt(n, line, m).cell] <= {ClueAt(n, line, m).value}
  {
    hide After, RemoveRelated;
    AfterNext(n, line, m, m + 1);
    AfterShrinks(n, line, m + 1, i, m, ClueAt(n, line, m).cell);
  }

  // ----- the line printed from a grid

  /** The line shows which cells of the grid are decided, and their values. */
  ghost predicate Shows(n: Dimension, line: string, g: Board) {
    && FullLine(n, line) && WellFormed(n, g)
    && forall c, m: nat, v :: At(n, m, c) ==> (ClueDigit(line[m]) && DigitValue(line[m]) == v <==> g[c] == {v})
  }

  lemma {:induction false} SmallValues(n: Dimension, line: string, i: nat)
    requires FullLine(n, line) && i <= |line| && n <= 3
    ensures forall c, v :: c in After(n, line, i) && v in After(n, line, i)[c] ==> v <= 9
    decreases i
  {
    hide After, RemoveRelated;
    assert Side(n) <= 9;
    if i == 0 {
      AfterStart(n, line);
    } else {
      SmallValues(n, line, i - 1);
      AfterNext(n, line, i - 1, i);
    }
  }

  /** The state line of a parsed grid shows it. */
  lemma StateLineShows(n: Dimension, g: Board) returns (line: string)
    requires WellFormed(n, g) && n <= 3 && forall c, v :: c in g && v in g[c] ==> v <= 9
    ensures StateLine(n, g) == Some(line) && Shows(n, line, g)
  {
    hide CellTexts;
    line := CellTexts(n, g, Side(n) * Side(n));
    CellTextsExact(n, g, Side(n) * Side(n));
    forall i | 0 <= i < |line|
      ensures Blank(line[i]) || ClueDigit(line[i])
      ensures forall v :: ClueDigit(line[i]) && DigitValue(line[i]) == v <==> g[AllCells(n)[i]] == {v}
    {
      CellCharMeaning(g[AllCells(n)[i]]);
    }
  }

  /** A line, the grid it gives, and the line printed from that grid. */
  ghost predicate Reprinted(n: Dimension, line: string, g: Board, again: string) {
    && n <= 3 && FullLine(n, line) && g == After(n, line, |line|) && Possible(g) && Shows(n, again, g)
  }

  lemma ParsedIsReprinted(line: string) returns (n: Dimension, g: Board, again: string)
    requires Parse(line).Parsed? && Possible(Parse(line).grid)
    ensures Parse(line) == Parsed(n, g) && StateLine(n, g) == Some(again) && Reprinted(n, line, g, again)
  {
    hide PlaceAll, LineClues, CellTexts;
    var clues;
    n, clues := ParsedLine(line);
    AfterAll(n, line);
    g := After(n, line, |line|);
    SmallValues(n, line, |line|);
    again := StateLineShows(n, g);
  }

  lemma ReprintedSettled(n: Dimension, line: string, g: Board, again: string)
    requires Reprinted(n, line, g, again)
    ensures Settled(n, g)
  {
    hide After;
    AfterConsistent(n, line, |line|);
  }

  /** The old clues are in the new line. */
  lemma OldClueStays(n: Dimension, line: string, g: Board, again: string, m: nat)
    requires Reprinted(n, line, g, again) && m < |line| && !Blank(line[m])
    ensures !Blank(again[m]) && ClueAt(n, again, m) == ClueAt(n, line, m)
  {
    hide After, PeerConsistent;
    var x := ClueAt(n, line, m);
    AfterClue(n, line, m, |line|);
    SubsetOfSingleton(g[x.cell], x.value);
    assert At(n, m, x.cell);
  }

  /** The further clues of the new line are in range. */
  lemma NewClueInRange(n: Dimension, line: string, g: Board, again: string, m: nat)
    requires Reprinted(n, line, g, again) && m < |line| && Blank(line[m]) && !Blank(again[m])
    ensures ClueAt(n, again, m).value <= Side(n)
  {
    hide After, PeerConsistent;
    var x := ClueAt(n, again, m);
    AfterStart(n, line);
    assert At(n, m, x.cell);
    AfterShrinks(n, line, 0, |line|, m, x.cell);
    assert g[x.cell] == {x.value};
  }

  // ----- what the decided cells in range leave on their own

  lemma PrefixMember(n: Dimension, line: string, i: nat, x: Clue)
    requires FullLine(n, line) && i <= |line| && x in LineClues(n, line[..i])
    ensures x in LineClues(n, line)
  {
    LineCluesExact(n, line);
    LineCluesExact(n, line[..i]);
    var k :| IsClueAt(n, line[..i], k, x);
    assert IsClueAt(n, line, k, x);
  }

  lemma ClueAtMember(n: Dimension, line: string, m: nat)
    requires FullLine(n, line) && m < |line| && !Blank(line[m])
    ensures ClueAt(n, line, m) in LineClues(n, line)
  {
    LineCluesExact(n, line);
    assert IsClueAt(n, line, m, ClueAt(n, line, m));
  }

  lemma MemberClueAt(n: Dimension, line: string, x: Clue) returns (m: nat)
    requires FullLine(n, line) && x in LineClues(n, line)
    ensures m < |line| && !Blank(line[m]) && ClueAt(n, line, m) == x
  {
    LineCluesExact(n, line);
    m :| IsClueAt(n, line, m, x);
  }

  lemma ShownMeets(n: Dimension, line: string, g: Board)
    requires Shows(n, line, g)
    ensures MeetsClues(g, LineClues(n, line))
  {
    hide LineClues, AllCells;
    forall x | x in LineClues(n, line)
      ensures x.cell in g && g[x.cell] == {x.value}
    {
      var m := MemberClueAt(n, line, x);
      assert At(n, m, x.cell);
    }
  }

  /** The digits of the line that are in range are possible without the others. */
  ghost predicate InsidePossible(n: Dimension, line: string)
    requires FullLine(n, line)
  {
    LineCluesExact(n, line);
    Possible(InsideResult(n, LineClues(n, line)))
  }

  lemma PrefixFits(n: Dimension, line: string, g: Board, i: nat) returns (g0: Board)
    requires Shows(n, line, g) && Settled(n, g) && InsidePossible(n, line) && i <= |line|
    ensures CluesIn(n, LineClues(n, line[..i])) && OnePerCell(LineClues(n, line[..i]))
    ensures FitsInside(n, g0, LineClues(n, line)) && FitsInside(n, g0, LineClues(n, line[..i]))
    ensures !Clashing(n, LineClues(n, line[..i]))
  {
    hide LineClues, InsideResult, Possible, PeerConsistent;
    var clues, part := LineClues(n, line), LineClues(n, line[..i]);
    LineCluesExact(n, line);
    LineCluesExact(n, line[..i]);
    forall x | x in part
      ensures x in clues
    {
      PrefixMember(n, line, i, x);
    }
    ShownMeets(n, line, g);
    SettledMeetsNoClash(n, g, part);
    InsideFits(n, clues, clues);
    g0 := InsideResult(n, clues);
  }

  /** So every part of the line is possible, and no later digit in range has lost its place. */
  lemma PrefixKeeps(n: Dimension, line: string, g: Board, i: nat)
    requires Shows(n, line, g) && Settled(n, g) && InsidePossible(n, line) && i <= |line|
    ensures Settled(n, After(n, line, i))
    ensures forall m :: 0 <= m < |line| && !Blank(line[m]) && ClueAt(n, line, m).value <= Side(n) ==>
      ClueAt(n, line, m).value in After(n, line, i)[ClueAt(n, line, m).cell]
  {
    hide LineClues, PeerConsistent, InsidePossible, PlaceAll, Overwrite;
    var part := LineClues(n, line[..i]);
    var g0 := PrefixFits(n, line, g, i);
    OverwriteSurvives(n, g0, part);
    PossibleAbove(Overwrite(n, g0, part), After(n, line, i));
    AfterConsistent(n, line, i);
    forall m | 0 <= m < |line| && !Blank(line[m]) && ClueAt(n, line, m).value <= Side(n)
      ensures ClueAt(n, line, m).value in After(n, line, i)[ClueAt(n, line, m).cell]
    {
      InsideClueKept(n, line, g0, i, m);
    }
  }

  lemma InsideClueKept(n: Dimension, line: string, g0: Board, i: nat, m: nat)
    requires FullLine(n, line) && i <= |line| && m < |line| && !Blank(line[m]) && ClueAt(n, line, m).value <= Side(n)
    requires FitsInside(n, g0, LineClues(n, line))
    requires CluesIn(n, LineClues(n, line[..i])) && OnePerCell(LineClues(n, line[..i]))
    requires Below(Overwrite(n, g0, LineClues(n, line[..i])), After(n, line, i))
    ensures ClueAt(n, line, m).value in After(n, line, i)[ClueAt(n, line, m).cell]
  {
    hide LineClues, PeerConsistent, PlaceAll, Overwrite, After;
    var x, part := ClueAt(n, line, m), LineClues(n, line[..i]);
    ClueAtMember(n, line, m);
    OverwriteExact(n, g0, part);
    forall y | y in part && Side(n) < y.value
      ensures y.cell != x.cell
    {
      PrefixMember(n, line, i, y);
      LineCluesExact(n, line);
      if y.cell == x.cell {
        OnePerCellMembers(LineClues(n, line), x, y);
      }
    }
    assert Overwrite(n, g0, part)[x.cell] == {x.value};
  }

  // ----- the further clues take nothing away that they should not

  /** Placing the same clue keeps one grid below another, as long as the lower one stays possible. */
  lemma PlaceMonotone(n: Dimension, a: Board, b: Board, x: Clue)
    requires WellFormed(n, b) && Below(a, b) && InGrid(n, x.cell) && Settled(n, Place(n, a, x.cell, x.value))
    ensures Below(Place(n, a, x.cell, x.value), Place(n, b, x.cell, x.value))
  {
    hide RemoveRelated, PeerConsistent;
    var r := Place(n, a, x.cell, x.value);
    SubsetOfSingleton(r[x.cell], x.value);
    OverwritingKeeps(n, r, b, x);
  }

  lemma {:induction false} AgainBelow(n: Dimension, line: string, g: Board, again: string, i: nat)
    requires Reprinted(n, line, g, again) && InsidePossible(n, again) && i <= |line|
    ensures Below(After(n, again, i), After(n, line, i))
    decreases i
  {
    hide After, PeerConsistent, InsidePossible, RemoveRelated;
    if i == 0 {
      AfterStart(n, line);
      AfterStart(n, again);
    } else {
      AgainBelow(n, line, g, again, i - 1);
      AgainBelowNext(n, line, g, again, i - 1, i);
    }
  }

  lemma AgainBelowNext(n: Dimension, line: string, g: Board, again: string, i: nat, next: nat)
    requires Reprinted(n, line, g, again) && InsidePossible(n, again) && i < |line| && next == i + 1
    requires Below(After(n, again, i), After(n, line, i))
    ensures Below(After(n, again, next), After(n, line, next))
  {
    hide After, PeerConsistent, InsidePossible, RemoveRelated, Blank;
    assert FullLine(n, again);
    ReprintedSettled(n, line, g, again);
    AfterNext(n, line, i, next);
    AfterNext(n, again, i, next);
    if !Blank(line[i]) {
      OldClueStays(n, line, g, again, i);
      PrefixKeeps(n, again, g, next);
      PlaceMonotone(n, After(n, again, i), After(n, line, i), ClueAt(n, line, i));
    } else if !Blank(again[i]) {
      NewClueInRange(n, line, g, again, i);
      PrefixKeeps(n, again, g, i);
      CandidateShrinks(n, After(n, again, i), ClueAt(n, again, i));
      BelowTransitive(After(n, again, next), After(n, again, i), After(n, line, i));
    } else {
    }
  }

  lemma CandidateShrinks(n: Dimension, g: Board, x: Clue)
    requires WellFormed(n, g) && InGrid(n, x.cell) && x.value in g[x.cell]
    ensures Below(Place(n, g, x.cell, x.value), g)
  {
    hide RemoveRelated;
  }

  // ----- the exact condition

  /** The grid as far as read in the decided cells, and the old grid elsewhere. */
  ghost function Mixed(n: Dimension, again: string, g: Board, i: nat): (k: Board)
    requires Shows(n, again, g) && i <= |again|
    ensures WellFormed(n, k)
  {
    map c | c in CellSet(n) :: if |g[c]| == 1 then After(n, again, i)[c] else g[c]
  }

  /**
   When a digit out of range is read again, the cell may have been decided by then; its value is lost to an undecided
   peer unless that did not have it anyway.
   */
  ghost predicate NothingLostAgain(n: Dimension, g: Board, again: string)
    requires Shows(n, again, g)
  {
    forall m, w, e :: 0 <= m < |again| && !Blank(again[m]) && Side(n) < ClueAt(n, again, m).value
                      && After(n, again, m)[ClueAt(n, again, m).cell] == {w}
                      && Peers(n, ClueAt(n, again, m).cell, e) && |g[e]| != 1
                      ==> w !in g[e]
  }

  /** Where the new line has the clue of a decided cell. */
  lemma DecidedClue(n: Dimension, again: string, g: Board, a: Cell) returns (m: nat)
    requires Shows(n, again, g) && InGrid(n, a) && |g[a]| == 1
    ensures m < |again| && !Blank(again[m]) && At(n, m, a)
    ensures ClueAt(n, again, m).cell == a && g[a] == {ClueAt(n, again, m).value}
  {
    m := Position(n, a);
    PositionInverse(n, a);
    SingletonHasOne(g[a]);
  }

  lemma UndecidedBlank(n: Dimension, again: string, g: Board, e: Cell) returns (m: nat)
    requires Shows(n, again, g) && InGrid(n, e) && |g[e]| != 1
    ensures m < |again| && Blank(again[m]) && At(n, m, e)
  {
    hide Side;
    m := Position(n, e);
    PositionInverse(n, e);
    ShownByDigit(n, again, g, e, m);
  }

  lemma ShownByDigit(n: Dimension, line: string, g: Board, c: Cell, m: nat)
    requires Shows(n, line, g) && At(n, m, c)
    ensures !Blank(line[m]) <==> |g[c]| == 1
  {
    if !Blank(line[m]) {
      assert g[c] == {DigitValue(line[m])};
    } else if |g[c]| == 1 {
      SingletonHasOne(g[c]);
    }
  }

  lemma DecidedPeerLacks(n: Dimension, g: Board, a: Cell, e: Cell, w: Value)
    requires Settled(n, g) && Peers(n, a, e) && g[a] == {w}
    ensures w !in g[e]
  {
    assert w in g[a];
  }

  lemma DecidedLosesNothing(n: Dimension, again: string, g: Board, i: nat, a: Cell, e: Cell, w: Value)
    requires Shows(n, again, g) && Settled(n, g) && InsidePossible(n, again) && NothingLostAgain(n, g, again)
    requires i <= |again| && Peers(n, a, e) && |g[a]| == 1 && |g[e]| != 1 && After(n, again, i)[a] == {w}
    ensures w !in g[e]
  {
    hide After, PeerConsistent, InsidePossible;
    var m := DecidedClue(n, again, g, a);
    var x := ClueAt(n, again, m);
    PrefixKeeps(n, again, g, i);
    PrefixKeeps(n, again, g, m);
    if x.value <= Side(n) {
      assert x.value in {w};
      DecidedPeerLacks(n, g, a, e, w);
    } else if m < i {
      AfterClue(n, again, m, i);
      assert w in {x.value};
      DecidedPeerLacks(n, g, a, e, w);
    } else {
      AfterShrinks(n, again, i, m, m, a);
      SubsetOfSingleton(After(n, again, m)[a], w);
    }
  }

  lemma MixedSettled(n: Dimension, again: string, g: Board, i: nat)
    requires Shows(n, again, g) && Settled(n, g) && InsidePossible(n, again) && NothingLostAgain(n, g, again)
    requires i <= |again|
    ensures Settled(n, Mixed(n, again, g, i))
  {
    hide After, InsidePossible, NothingLostAgain, Shows, Peers;
    PrefixKeeps(n, again, g, i);
    var k := Mixed(n, again, g, i);
    forall a, b, w | a in k && b in k && Peers(n, a, b) && w in k[a] && w in k[b]
      ensures |k[a]| != 1
    {
      if |k[a]| == 1 {
        SingletonHasOne(k[a]);
        if |g[a]| == 1 && |g[b]| != 1 {
          DecidedLosesNothing(n, again, g, i, a, b, w);
        }
      }
    }
  }

  /** If nothing is lost, the undecided cells keep their candidates. */
  lemma {:induction false} UndecidedKept(n: Dimension, again: string, g: Board, i: nat)
    requires Shows(n, again, g) && Settled(n, g) && InsidePossible(n, again) && NothingLostAgain(n, g, again)
    requires i <= |again| && forall e :: e in g && |g[e]| != 1 ==> g[e] <= Fresh(n)[e]
    ensures forall e :: e in g && |g[e]| != 1 ==> g[e] <= After(n, again, i)[e]
    decreases i
  {
    hide After, InsidePossible, NothingLostAgain, PeerConsistent, RemoveRelated;
    if i == 0 {
      AfterStart(n, again);
    } else {
      UndecidedKept(n, again, g, i - 1);
      UndecidedKeptNext(n, again, g, i - 1, i);
    }
  }

  lemma UndecidedKeptNext(n: Dimension, again: string, g: Board, i: nat, next: nat)
    requires Shows(n, again, g) && Settled(n, g) && InsidePossible(n, again) && NothingLostAgain(n, g, again)
    requires i < |again| && next == i + 1 && forall e :: e in g && |g[e]| != 1 ==> g[e] <= After(n, again, i)[e]
    ensures forall e :: e in g && |g[e]| != 1 ==> g[e] <= After(n, again, next)[e]
  {
    hide After, InsidePossible, NothingLostAgain, PeerConsistent, RemoveRelated, Place;
    AfterNext(n, again, i, next);
    if !Blank(again[i]) {
      var x := ClueAt(n, again, i);
      assert At(n, i, x.cell);
      MixedSettled(n, again, g, next);
      PrefixKeeps(n, again, g, next);
      MixedFits(n, again, g, i, next);
      OverwritingKeeps(n, Mixed(n, again, g, next), After(n, again, i), x);
    }
  }

  lemma MixedFits(n: Dimension, again: string, g: Board, i: nat, next: nat)
    requires Shows(n, again, g) && i < |again| && next == i + 1 && !Blank(again[i])
    requires Possible(After(n, again, next))
    requires forall e :: e in g && |g[e]| != 1 ==> g[e] <= After(n, again, i)[e]
    ensures var x, k := ClueAt(n, again, i), Mixed(n, again, g, next);
            && k[x.cell] == {x.value}
            && forall c :: c in k && c != x.cell ==> k[c] <= After(n, again, i)[c]
  {
    hide After;
    var x, k := ClueAt(n, again, i), Mixed(n, again, g, next);
    assert At(n, i, x.cell);
    assert g[x.cell] == {x.value};
    AfterClue(n, again, i, next);
    SubsetOfSingleton(After(n, again, next)[x.cell], x.value);
    forall c | c in k && c != x.cell
      ensures k[c] <= After(n, again, i)[c]
    {
      AfterNextShrinks(n, again, i, next, c);
    }
  }

  /** A lost value tells the new grid from the old one. */
  lemma LostValueShowsAgain(n: Dimension, g: Board, again: string, m: nat, w: Value, e: Cell)
    requires Shows(n, again, g) && m < |again| && !Blank(again[m])
    requires After(n, again, m)[ClueAt(n, again, m).cell] == {w} && Peers(n, ClueAt(n, again, m).cell, e)
    requires |g[e]| != 1 && w in g[e]
    ensures After(n, again, |again|) != g
  {
    hide After;
    AfterConsistent(n, again, m);
    assert w in After(n, again, m)[ClueAt(n, again, m).cell];
    var j := UndecidedBlank(n, again, g, e);
    AfterShrinks(n, again, m, |again|, j, e);
  }

  lemma UndecidedFresh(n: Dimension, line: string, g: Board, again: string)
    requires Reprinted(n, line, g, again)
    ensures forall e :: e in g && |g[e]| != 1 ==> g[e] <= Fresh(n)[e]
  {
    hide After;
    forall e | e in g && |g[e]| != 1
      ensures g[e] <= Fresh(n)[e]
    {
      var j := UndecidedBlank(n, again, g, e);
      if !Blank(line[j]) {
        OldClueStays(n, line, g, again, j);
      }
      AfterStart(n, line);
      AfterShrinks(n, line, 0, |line|, j, e);
    }
  }

  lemma DecidedSame(n: Dimension, again: string, g: Board, c: Cell)
    requires Shows(n, again, g) && Possible(After(n, again, |again|)) && InGrid(n, c) && |g[c]| == 1
    ensures After(n, again, |again|)[c] == g[c]
  {
    hide After;
    var m := DecidedClue(n, again, g, c);
    AfterClue(n, again, m, |again|);
    SubsetOfSingleton(After(n, again, |again|)[c], ClueAt(n, again, m).value);
  }

  lemma NothingLostGivesSame(n: Dimension, line: string, g: Board, again: string)
    requires Reprinted(n, line, g, again) && InsidePossible(n, again) && NothingLostAgain(n, g, again)
    ensures After(n, again, |again|) == g
  {
    hide After, InsidePossible, NothingLostAgain, PeerConsistent;
    ReprintedSettled(n, line, g, again);
    UndecidedFresh(n, line, g, again);
    NothingLostKeeps(n, g, again);
    AgainBelow(n, line, g, again, |line|);
    BelowBothWays(After(n, again, |again|), g);
  }

  lemma NothingLostKeeps(n: Dimension, g: Board, again: string)
    requires Shows(n, again, g) && Settled(n, g) && InsidePossible(n, again) && NothingLostAgain(n, g, again)
    requires forall e :: e in g && |g[e]| != 1 ==> g[e] <= Fresh(n)[e]
    ensures Below(g, After(n, again, |again|)) && |again| == Side(n) * Side(n)
  {
    hide After, InsidePossible, NothingLostAgain, PeerConsistent;
    PrefixKeeps(n, again, g, |again|);
    UndecidedKept(n, again, g, |again|);
    forall c | c in g
      ensures g[c] <= After(n, again, |again|)[c]
    {
      if |g[c]| == 1 {
        DecidedSame(n, again, g, c);
      }
    }
  }

  /**
   The exact condition for the state line to be a normal form, for a possible grid parsed from any line whose decided
   cells in range are possible without those out of range: parsing the state line gives the grid back if and only if
   no value is lost to a cell that is decided and then overwritten.
   */
  lemma StateLineNormalFormIff(n: Dimension, line: string, g: Board, again: string)
    requires Reprinted(n, line, g, again) && InsidePossible(n, again)
    ensures Parse(line) == Parsed(n, g)
    ensures Parse(again) == Parse(line) <==> NothingLostAgain(n, g, again)
  {
    hide After, InsidePossible, PeerConsistent, Parse, Possible;
    AfterAll(n, line);
    AfterAll(n, again);
    if NothingLostAgain(n, g, again) {
      NothingLostGivesSame(n, line, g, again);
    } else {
      var m, w, e :| 0 <= m < |again| && !Blank(again[m]) && Side(n) < ClueAt(n, again, m).value
                     && After(n, again, m)[ClueAt(n, again, m).cell] == {w}
                     && Peers(n, ClueAt(n, again, m).cell, e) && |g[e]| != 1 && w in g[e];
      LostValueShowsAgain(n, g, again, m, w, e);
    }
  }
}
