/**
 The one-line text form of a grid: one character per cell, left to right and then top to bottom. A line of clues
 is parsed by placing them one after the other, and a grid is printed with a dot for every cell without a value.
 */
module Lines {
  import opened Geometry
  import opened Candidates
  import opened Options
  import opened Propagation
  import opened Clues
  import opened Deduction
  import opened Search
  import opened Enumeration

  // ----- characters

  predicate Blank(ch: char) {
    ch == '.' || ch == '0'
  }

  predicate ClueDigit(ch: char) {
    '1' <= ch <= '9'
  }

  function DigitValue(ch: char): (v: Value)
    requires ClueDigit(ch)
    ensures v <= 9
  {
    ch as int - '0' as int
  }

  function DigitChar(v: nat): (ch: char)
    requires v <= 9
    ensures 1 <= v ==> ClueDigit(ch) && DigitValue(ch) == v
  {
    (v + '0' as int) as char
  }

  /** A number in decimal notation. */
  function Decimal(v: nat): string {
    if v <= 9 then [DigitChar(v)] else Decimal(v / 10) + [DigitChar(v % 10)]
  }

  lemma DigitExact(ch: char)
    requires ClueDigit(ch)
    ensures "0123456789"[DigitValue(ch)] == ch
    ensures forall v: nat :: v <= 9 && "0123456789"[v] == ch ==> v == DigitValue(ch)
  {
  }

  lemma DigitCharExact(v: nat)
    requires v <= 9
    ensures DigitChar(v) == "0123456789"[v]
  {
  }

  /** The number a decimal notation stands for. */
  function NumberOf(text: string): nat
    requires forall i :: 0 <= i < |text| ==> '0' <= text[i] <= '9'
    decreases |text|
  {
    if text == "" then 0
    else 10 * NumberOf(text[..|text| - 1]) + (text[|text| - 1] as int - '0' as int)
  }

  /** The decimal notation of a number has digits only, does not start with a zero, and stands for the number. */
  lemma {:induction false} DecimalExact(v: Value)
    ensures Decimal(v) != "" && Decimal(v)[0] != '0'
    ensures forall i :: 0 <= i < |Decimal(v)| ==> '0' <= Decimal(v)[i] <= '9'
    ensures NumberOf(Decimal(v)) == v
    decreases v
  {
    if v <= 9 {
      assert [DigitChar(v)][..0] == "";
    } else {
      DecimalExact(v / 10);
      var front, last := Decimal(v / 10), DigitChar(v % 10);
      assert (front + [last])[..|front + [last]| - 1] == front;
    }
  }

  // ----- parsing

  /** The fourth root of a line's length, if that is a sector dimension a line can stand for. */
  function SectorDimension(length: nat): Option<Dimension> {
    if length == 1 then Some(1) else if length == 16 then Some(2) else if length == 81 then Some(3) else None
  }

  lemma SectorDimensionIsFourthRoot(length: nat, n: Dimension)
    ensures SectorDimension(length) == Some(n) <==> n <= 3 && Side(n) * Side(n) == length
  {
  }

  predicate Readable(line: string) {
    forall i :: 0 <= i < |line| ==> Blank(line[i]) || ClueDigit(line[i])
  }

  /** The clues among the first characters of a line, in the order of the line. */
  function LineClues(n: Dimension, line: string): (clues: seq<Clue>)
    requires |line| <= Side(n) * Side(n) && Readable(line)
    decreases |line|
  {
    if line == [] then []
    else
      var k := |line| - 1;
      LineClues(n, line[..k]) + if Blank(line[k]) then [] else [Clue(AllCells(n)[k], DigitValue(line[k]))]
  }

  datatype ParseResult = Parsed(n: Dimension, grid: Board) | ValueError

  function Parse(line: string): ParseResult {
    match SectorDimension(|line|)
    case None => ValueError
    case Some(n) =>
      if !Readable(line) then ValueError
      else
        LineCluesExact(n, line);
        Parsed(n, PlaceAll(n, Fresh(n), LineClues(n, line)))
  }

  /** There is one clue for every character that is not blank, in the cell at its place. */
  lemma {:induction false} LineCluesExact(n: Dimension, line: string)
    requires |line| <= Side(n) * Side(n) && Readable(line)
    ensures CluesIn(n, LineClues(n, line)) && OnePerCell(LineClues(n, line))
    ensures forall x :: x in LineClues(n, line) <==> exists i :: IsClueAt(n, line, i, x)
    decreases |line|
  {
    hide IsClueAt, CluesIn, OnePerCell, DigitValue;
    if line == [] {
      NoClues(n);
    } else {
      var k := |line| - 1;
      LineCluesExact(n, line[..k]);
      CellAt(n, k);
      forall x
        ensures x in LineClues(n, line) <==> exists i :: IsClueAt(n, line, i, x)
      {
        ClueNext(n, line, line[..k], LineClues(n, line[..k]), x);
      }
      CluesNext(n, line, line[..k], LineClues(n, line[..k]));
    }
  }

  lemma NoClues(n: Dimension)
    ensures CluesIn(n, []) && OnePerCell([]) && forall i, x :: !IsClueAt(n, [], i, x)
  {
  }

  lemma ClueNext(n: Dimension, line: string, before: string, front: seq<Clue>, x: Clue)
    requires 0 < |line| <= Side(n) * Side(n) && Readable(line) && before == line[..|line| - 1]
    requires x in front <==> exists i :: IsClueAt(n, before, i, x)
    ensures var k := |line| - 1;
            x in front + (if Blank(line[k]) then [] else [Clue(AllCells(n)[k], DigitValue(line[k]))])
            <==> exists i :: IsClueAt(n, line, i, x)
  {
    hide DigitValue, Side;
    var k := |line| - 1;
    if i :| IsClueAt(n, line, i, x) {
      assert i < k ==> IsClueAt(n, before, i, x);
    }
    if x in front {
      var i :| IsClueAt(n, before, i, x);
      assert IsClueAt(n, line, i, x);
    }
    if !Blank(line[k]) && x == Clue(AllCells(n)[k], DigitValue(line[k])) {
      assert IsClueAt(n, line, k, x);
    }
  }

  lemma CluesNext(n: Dimension, line: string, before: string, front: seq<Clue>)
    requires 0 < |line| <= Side(n) * Side(n) && Readable(line) && before == line[..|line| - 1]
    requires CluesIn(n, front) && OnePerCell(front)
    requires forall x :: x in front <==> exists i :: IsClueAt(n, before, i, x)
    ensures var k := |line| - 1;
            var clues := front + if Blank(line[k]) then [] else [Clue(AllCells(n)[k], DigitValue(line[k]))];
            CluesIn(n, clues) && OnePerCell(clues)
  {
    hide DigitValue;
    var k := |line| - 1;
    AllCellsExact(n);
    CellAt(n, k);
    forall i | 0 <= i < |front|
      ensures front[i].cell != AllCells(n)[k]
    {
      assert front[i] in front;
      var j :| IsClueAt(n, before, j, front[i]);
    }
  }

  /** A line is accepted if it has 1, 16 or 81 characters, all of them dots or digits. */
  lemma LineAccepted(line: string)
    ensures Parse(line).Parsed?
            <==> (|line| == 1 || |line| == 16 || |line| == 81)
                 && forall i :: 0 <= i < |line| ==> line[i] == '.' || '0' <= line[i] <= '9'
  {
    hide PlaceAll, LineClues;
  }

  /**
   The character for a cell gives it a clue exactly if it is one of the digits 1 to 9, which is then the value; a dot or
   a zero gives none.
   */
  lemma LineClueExact(n: Dimension, line: string, c: Cell, v: Value)
    requires |line| == Side(n) * Side(n) && Readable(line)
    ensures InGrid(n, c) ==> c.row * Side(n) + c.col < |line|
    ensures Clue(c, v) in LineClues(n, line)
            <==> InGrid(n, c) && v <= 9 && line[c.row * Side(n) + c.col] == "0123456789"[v]
  {
    hide LineClues, Side, AllCells, DigitValue;
    LineCluesExact(n, line);
    if InGrid(n, c) {
      PositionInverse(n, c);
      var i := Position(n, c);
      if ClueDigit(line[i]) {
        DigitExact(line[i]);
        if v == DigitValue(line[i]) {
          assert IsClueAt(n, line, i, Clue(c, v));
        }
      }
      DigitsAreClues(v);
    }
    if Clue(c, v) in LineClues(n, line) {
      var i :| IsClueAt(n, line, i, Clue(c, v));
      CellAt(n, i);
      DigitExact(line[i]);
    }
  }

  lemma DigitsAreClues(v: Value)
    ensures v <= 9 ==> ClueDigit("0123456789"[v])
  {
  }

  predicate IsClueAt(n: Dimension, line: string, i: int, x: Clue)
    requires |line| <= Side(n) * Side(n)
  {
    0 <= i < |line| && ClueDigit(line[i]) && x == Clue(AllCells(n)[i], DigitValue(line[i]))
  }

  lemma ReadablePrefix(line: string, i: nat)
    requires i < |line| && Readable(line[..i + 1])
    ensures Readable(line[..i]) && (Blank(line[i]) || ClueDigit(line[i]))
  {
    var more := line[..i + 1];
    assert more[i] == line[i];
    forall k | 0 <= k < i
      ensures Blank(line[k]) || ClueDigit(line[k])
    {
      assert more[k] == line[k];
    }
  }

  lemma ReadableNext(line: string, i: nat)
    requires i < |line| && Readable(line[..i])
    ensures Readable(line[..i + 1]) <==> Blank(line[i]) || ClueDigit(line[i])
  {
    assert line[..i + 1] == line[..i] + [line[i]];
  }

  lemma ReadableAll(line: string, i: nat)
    requires i < |line|
    ensures Readable(line) ==> Readable(line[..i + 1])
  {
  }

  /** Reading one more character of a line. */
  lemma PlaceNextCharacter(n: Dimension, line: string, i: nat)
    requires |line| == Side(n) * Side(n) && i < |line| && Readable(line[..i + 1])
    ensures Readable(line[..i]) && InGrid(n, AllCells(n)[i]) && (Blank(line[i]) || ClueDigit(line[i]))
    ensures CluesIn(n, LineClues(n, line[..i])) && CluesIn(n, LineClues(n, line[..i + 1]))
    ensures var g := PlaceAll(n, Fresh(n), LineClues(n, line[..i]));
            PlaceAll(n, Fresh(n), LineClues(n, line[..i + 1]))
            == if Blank(line[i]) then g else Place(n, g, AllCells(n)[i], DigitValue(line[i]))
  {
    ReadablePrefix(line, i);
    CellAt(n, i);
    LineCluesExact(n, line[..i]);
    var clues, x := LineClues(n, line[..i]), line[i];
    assert line[..i + 1][..i] == line[..i];
    if Blank(x) {
      assert LineClues(n, line[..i + 1]) == clues;
    } else {
      var clue := Clue(AllCells(n)[i], DigitValue(x));
      PlaceAllAppend(n, Fresh(n), clues, clue);
      assert LineClues(n, line[..i + 1]) == clues + [clue];
      assert PlaceAll(n, Fresh(n), LineClues(n, line[..i + 1])) == Place(n, PlaceAll(n, Fresh(n), clues), clue.cell, clue.value);
    }
  }

  /** The assignment has the digit of every character that is a digit, in the cell at its place. */
  ghost predicate AgreesWithLine(n: Dimension, s: Assignment, line: string)
    requires |line| == Side(n) * Side(n)
  {
    forall i :: 0 <= i < |line| && ClueDigit(line[i]) ==>
      AllCells(n)[i] in s && s[AllCells(n)[i]] == DigitValue(line[i])
  }

  predicate LineInRange(n: Dimension, line: string) {
    forall i :: 0 <= i < |line| && ClueDigit(line[i]) ==> DigitValue(line[i]) <= Side(n)
  }

  lemma ParsedLine(line: string) returns (n: Dimension, clues: seq<Clue>)
    requires Parse(line).Parsed?
    ensures n == Parse(line).n <= 3 && |line| == Side(n) * Side(n) && Readable(line)
    ensures clues == LineClues(n, line) && CluesIn(n, clues) && OnePerCell(clues)
    ensures WellFormed(n, Parse(line).grid) && Parse(line).grid == PlaceAll(n, Fresh(n), clues)
    ensures LineInRange(n, line) <==> forall x :: x in clues ==> x.value <= Side(n)
  {
    n := Parse(line).n;
    SectorDimensionIsFourthRoot(|line|, n);
    clues := LineClues(n, line);
    LineCluesExact(n, line);
    forall i | 0 <= i < |line| && ClueDigit(line[i])
      ensures Clue(AllCells(n)[i], DigitValue(line[i])) in clues
    {
      assert IsClueAt(n, line, i, Clue(AllCells(n)[i], DigitValue(line[i])));
    }
    forall x | x in clues
      ensures exists i :: IsClueAt(n, line, i, x)
    {
    }
  }

  lemma AgreementIsCluewise(n: Dimension, line: string, s: Assignment)
    requires |line| == Side(n) * Side(n) && Readable(line)
    ensures AgreesWithLine(n, s, line) <==> Agrees(s, LineClues(n, line))
  {
    LineCluesExact(n, line);
    var clues := LineClues(n, line);
    forall i | 0 <= i < |line| && ClueDigit(line[i])
      ensures Clue(AllCells(n)[i], DigitValue(line[i])) in clues
    {
      assert IsClueAt(n, line, i, Clue(AllCells(n)[i], DigitValue(line[i])));
    }
    forall x | x in clues && AgreesWithLine(n, s, line)
      ensures x.cell in s && s[x.cell] == x.value
    {
      var i :| IsClueAt(n, line, i, x);
    }
  }

  /** The grid built from a line is peer consistent, and in range exactly when the line's digits are. */
  lemma ParseConsistent(line: string)
    requires Parse(line).Parsed?
    ensures var r := Parse(line);
            WellFormed(r.n, r.grid) && PeerConsistent(r.n, r.grid) && (InRange(r.n, r.grid) <==> LineInRange(r.n, line))
  {
    var n, clues := ParsedLine(line);
    FreshSettled(n);
    PlaceAllConsistent(n, Fresh(n), clues);
    RangeKeptIffCluesInRange(n, clues);
  }

  /** Parsing loses and invents nothing: the sudokus below the parsed grid are those that agree with the line. */
  lemma ParseLosesAndInventsNothing(line: string, s: Assignment)
    requires Parse(line).Parsed? && ValidSudoku(Parse(line).n, s)
    ensures |line| == Side(Parse(line).n) * Side(Parse(line).n)
    ensures Completes(Parse(line).n, s, Parse(line).grid) <==> AgreesWithLine(Parse(line).n, s, line)
  {
    var n, clues := ParsedLine(line);
    AgreementIsCluewise(n, line, s);
    CluesLoseAndInventNothing(n, clues, s);
  }

  /** All lines of 81 characters keep in range, since every digit does. */
  lemma FullSizeLinesInRange(line: string)
    requires |line| == 81
    ensures LineInRange(3, line)
  {
  }

  /** The search from a parsed line reports exactly the filled-in sudokus that agree with the line, each once. */
  lemma SearchSolvesLine(line: string, s: Assignment)
    requires Parse(line).Parsed? && LineInRange(Parse(line).n, line)
    ensures WellFormed(Parse(line).n, Parse(line).grid) && |line| == Side(Parse(line).n) * Side(Parse(line).n)
    ensures var n, reports := Parse(line).n, Reports(Parse(line).n, Parse(line).grid);
            && ((exists i :: ShownAt(s, reports, i)) <==> ValidSudoku(n, s) && AgreesWithLine(n, s, line))
            && (forall i, j :: ShownAt(s, reports, i) && ShownAt(s, reports, j) ==> i == j)
  {
    var n, clues := ParsedLine(line);
    ParseConsistent(line);
    SearchExact(n, Parse(line).grid, s);
    if ValidSudoku(n, s) {
      ParseLosesAndInventsNothing(line, s);
    }
  }

  /** With a digit out of range there is nothing to find, and no grid the search reports is a sudoku. */
  lemma OutOfRangeLineIsNeverSolved(line: string, s: Assignment)
    requires Parse(line).Parsed? && !LineInRange(Parse(line).n, line) && ValidSudoku(Parse(line).n, s)
    ensures WellFormed(Parse(line).n, Parse(line).grid) && |line| == Side(Parse(line).n) * Side(Parse(line).n)
    ensures !AgreesWithLine(Parse(line).n, s, line)
    ensures forall x :: x in Reports(Parse(line).n, Parse(line).grid) ==> x.grid != Shown(s)
  {
    var n, clues := ParsedLine(line);
    var g := Parse(line).grid;
    ParseConsistent(line);
    var i :| 0 <= i < |clues| && Side(n) < clues[i].value;
    OutOfRangeCluesHaveNoSolution(n, clues, i, s);
    ParseLosesAndInventsNothing(line, s);
    forall x | x in Reports(n, g)
      ensures x.grid != Shown(s)
    {
      var t := ReportShowsSolution(n, g, x);
      if x.grid == Shown(s) {
        ShownInjective(s, t);
      }
    }
  }

  /** A grid the search reports is a sudoku if and only if every digit of the line is in range. */
  lemma ReportIsSudokuIff(line: string, s: Assignment)
    requires Parse(line).Parsed? && WellFormed(Parse(line).n, Parse(line).grid)
    requires exists x :: x in Reports(Parse(line).n, Parse(line).grid) && x.grid == Shown(s)
    ensures ValidSudoku(Parse(line).n, s) <==> LineInRange(Parse(line).n, line)
  {
    var n, g := Parse(line).n, Parse(line).grid;
    ParseConsistent(line);
    var x :| x in Reports(n, g) && x.grid == Shown(s);
    var t := ReportShowsSolution(n, g, x);
    ShownInjective(s, t);
    CompletionIsSudokuIff(line, s);
  }

  /** A completion of the parsed grid is a sudoku if and only if every digit of the line is in range. */
  lemma CompletionIsSudokuIff(line: string, s: Assignment)
    requires Parse(line).Parsed? && Completes(Parse(line).n, s, Parse(line).grid)
    ensures ValidSudoku(Parse(line).n, s) <==> LineInRange(Parse(line).n, line)
  {
    var n, clues := ParsedLine(line);
    ParseConsistent(line);
    if LineInRange(n, line) {
      ValidSudokuIff(n, s);
    } else if ValidSudoku(n, s) {
      var i :| 0 <= i < |clues| && Side(n) < clues[i].value;
      OutOfRangeCluesHaveNoSolution(n, clues, i, s);
    }
  }

  /** A grid that parsing alone completes is a sudoku if and only if every digit of the line is in range. */
  lemma CompleteIsSudokuIff(line: string) returns (s: Assignment)
    requires Parse(line).Parsed? && Complete(Parse(line).grid)
    ensures Parse(line).grid == Shown(s)
    ensures ValidSudoku(Parse(line).n, s) <==> LineInRange(Parse(line).n, line)
  {
    ParseConsistent(line);
    s := CompleteGridIsSolution(Parse(line).n, Parse(line).grid);
    CompletionIsSudokuIff(line, s);
  }

  lemma OneCellLineParses(line: string)
    requires |line| == 1 && ClueDigit(line[0])
    ensures Parse(line).Parsed? && Parse(line).n == 1 && Readable(line) && |line| == Side(1) * Side(1)
    ensures InGrid(1, Cell(0, 0)) && AllCells(1)[0] == Cell(0, 0)
  {
    hide PlaceAll, LineClues;
  }

  lemma OneCellClue(line: string) returns (i: nat)
    requires |line| == 1 && ClueDigit(line[0]) && Readable(line) && |line| == Side(1) * Side(1)
    requires AllCells(1)[0] == Cell(0, 0)
    ensures i < |LineClues(1, line)| && LineClues(1, line)[i] == Clue(Cell(0, 0), DigitValue(line[0]))
  {
    hide LineClues;
    var x, clues := Clue(Cell(0, 0), DigitValue(line[0])), LineClues(1, line);
    LineCluesExact(1, line);
    assert IsClueAt(1, line, 0, x);
    assert x in clues;
    i :| 0 <= i < |clues| && clues[i] == x;
  }

  lemma OneCellLineGrid(line: string)
    requires |line| == 1 && '2' <= line[0] <= '9'
    ensures Parse(line).Parsed? && Parse(line).n == 1 && Parse(line).grid.Keys == {Cell(0, 0)}
    ensures Parse(line).grid[Cell(0, 0)] == {DigitValue(line[0])}
  {
    hide PlaceAll, LineClues, Parse, Side;
    OneCellLineParses(line);
    var n, clues := ParsedLine(line);
    var i := OneCellClue(line);
    OneCellClueStays(clues, i);
    OneCellGeometry();
  }

  lemma OneCellClueStays(clues: seq<Clue>, i: nat)
    requires CluesIn(1, clues) && OnePerCell(clues) && i < |clues| && 1 < clues[i].value
    ensures PlaceAll(1, Fresh(1), clues)[clues[i].cell] == {clues[i].value}
  {
    var j := OutOfRangeClueStays(1, clues, i);
    OneCellGeometry();
    assert clues[i].cell in CellSet(1) && clues[j].cell in CellSet(1);
    assert j == i;
  }

  /** Without the range, completeness says nothing: such a line gives a grid that is complete and yet no sudoku. */
  lemma CompleteButNoSudoku(line: string)
    requires |line| == 1 && '2' <= line[0] <= '9'
    ensures Parse(line).Parsed? && Parse(line).n == 1 && Complete(Parse(line).grid)
    ensures forall s :: Parse(line).grid == Shown(s) ==> !ValidSudoku(1, s)
  {
    hide Parse, PlaceAll;
    OneCellLineGrid(line);
    var g := Parse(line).grid;
    forall s | g == Shown(s)
      ensures !ValidSudoku(1, s)
    {
      assert Cell(0, 0) in s && s[Cell(0, 0)] in Shown(s)[Cell(0, 0)];
    }
  }

  // ----- printing

  function CellText(candidates: set<Value>): string {
    if |candidates| == 1 then Decimal(Only(candidates)) else "."
  }

  /** The text of the first k cells. */
  function CellTexts(n: Dimension, g: Board, k: nat): string
    requires WellFormed(n, g) && k <= Side(n) * Side(n)
  {
    if k == 0 then ""
    else
      CellAt(n, k - 1);
      CellTexts(n, g, k - 1) + CellText(g[AllCells(n)[k - 1]])
  }

  lemma TextOfValue(candidates: set<Value>, value: Option<Value>)
    requires forall v :: value == Some(v) <==> candidates == {v}
    ensures CellText(candidates) == if value.Some? then Decimal(value.value) else "."
  {
    hide Decimal;
    if |candidates| == 1 {
      SingletonHasOne(candidates);
    }
  }

  lemma NoCellTexts(n: Dimension, g: Board)
    requires WellFormed(n, g)
    ensures CellTexts(n, g, 0) == "" && |AllCells(n)| == Side(n) * Side(n)
  {
  }

  lemma NextCellText(n: Dimension, g: Board, k: nat)
    requires WellFormed(n, g) && k < Side(n) * Side(n) && AllCells(n)[k] in g
    ensures CellTexts(n, g, k + 1) == CellTexts(n, g, k) + CellText(g[AllCells(n)[k]])
  {
  }

  /** The state line; grids too large for one character per cell have none. */
  function StateLine(n: Dimension, g: Board): Option<string>
    requires WellFormed(n, g)
  {
    if 3 < n then None else Some(CellTexts(n, g, Side(n) * Side(n)))
  }

  /** What a state line shows for a cell when values have one digit. */
  function CellChar(candidates: set<Value>): char {
    if |candidates| == 1 && Only(candidates) <= 9 then DigitChar(Only(candidates)) else '.'
  }

  lemma {:induction false} CellTextsExact(n: Dimension, g: Board, k: nat)
    requires WellFormed(n, g) && k <= Side(n) * Side(n)
    requires forall c, v :: c in g && v in g[c] ==> v <= 9
    ensures |CellTexts(n, g, k)| == k
    ensures forall i :: 0 <= i < k ==> AllCells(n)[i] in g && CellTexts(n, g, k)[i] == CellChar(g[AllCells(n)[i]])
    decreases k
  {
    if k != 0 {
      CellTextsExact(n, g, k - 1);
      CellAt(n, k - 1);
      var candidates := g[AllCells(n)[k - 1]];
      if |candidates| == 1 {
        assert Only(candidates) in candidates;
      }
      assert CellText(candidates) == [CellChar(candidates)];
    }
  }

  /** A cell is printed as the digit that is its only candidate, and as a dot if there are none or several. */
  lemma CellCharExact(candidates: set<Value>)
    requires forall v :: v in candidates ==> v <= 9
    ensures forall v :: candidates == {v} ==> v <= 9 && CellChar(candidates) == "0123456789"[v]
    ensures |candidates| != 1 ==> CellChar(candidates) == '.'
  {
    forall v | candidates == {v}
      ensures v <= 9 && CellChar(candidates) == "0123456789"[v]
    {
      assert v in candidates;
      assert |candidates| == 1 && Only(candidates) == v;
      DigitCharExact(v);
    }
  }

  /** The state line in full: one character for each cell, left to right and then top to bottom. */
  lemma StateLineExact(n: Dimension, g: Board, c: Cell)
    requires WellFormed(n, g) && InGrid(n, c) && forall d, v :: d in g && v in g[d] ==> v <= 9
    ensures StateLine(n, g).Some? <==> n <= 3
    ensures n <= 3 ==>
      var line, i := StateLine(n, g).value, c.row * Side(n) + c.col;
      && |line| == Side(n) * Side(n) && i < |line|
      && (forall v :: g[c] == {v} ==> v <= 9 && line[i] == "0123456789"[v])
      && (|g[c]| != 1 ==> line[i] == '.')
  {
    hide CellTexts, CellChar, Side;
    PositionInverse(n, c);
    CellTextsExact(n, g, Side(n) * Side(n));
    CellCharExact(g[c]);
  }

  lemma CellCharMeaning(candidates: set<Value>)
    requires forall v :: v in candidates ==> v <= 9
    ensures Blank(CellChar(candidates)) || ClueDigit(CellChar(candidates))
    ensures forall v :: ClueDigit(CellChar(candidates)) && DigitValue(CellChar(candidates)) == v <==> candidates == {v}
  {
    if |candidates| == 1 {
      assert Only(candidates) in candidates;
    }
  }

  /** A line that shows each cell by its character: its clues are the cells with one candidate. */
  lemma ShowingLineClues(n: Dimension, g: Board, line: string)
    requires WellFormed(n, g) && |line| == Side(n) * Side(n) && Readable(line)
    requires forall i :: 0 <= i < |line| ==> AllCells(n)[i] in g
    requires forall i, v :: 0 <= i < |line| ==>
      (ClueDigit(line[i]) && DigitValue(line[i]) == v <==> g[AllCells(n)[i]] == {v})
    ensures forall x :: x in LineClues(n, line) <==> x.cell in g && g[x.cell] == {x.value}
  {
    LineCluesExact(n, line);
    forall x
      ensures x in LineClues(n, line) <==> x.cell in g && g[x.cell] == {x.value}
    {
      if x in LineClues(n, line) {
        var i :| IsClueAt(n, line, i, x);
        assert g[AllCells(n)[i]] == {DigitValue(line[i])};
      }
      if x.cell in g && g[x.cell] == {x.value} {
        PositionInverse(n, x.cell);
        assert IsClueAt(n, line, Position(n, x.cell), x);
      }
    }
  }

  /** The clues of a state line are the cells with one candidate. */
  lemma StateLineClues(n: Dimension, g: Board) returns (line: string)
    requires WellFormed(n, g) && InRange(n, g) && n <= 3
    ensures StateLine(n, g) == Some(line) && |line| == Side(n) * Side(n) && Readable(line)
    ensures forall x :: x in LineClues(n, line) <==> x.cell in g && g[x.cell] == {x.value}
  {
    line := CellTexts(n, g, Side(n) * Side(n));
    assert Side(n) <= 9;
    CellTextsExact(n, g, Side(n) * Side(n));
    forall i | 0 <= i < |line|
      ensures Blank(line[i]) || ClueDigit(line[i])
      ensures forall v :: ClueDigit(line[i]) && DigitValue(line[i]) == v <==> g[AllCells(n)[i]] == {v}
    {
      CellCharMeaning(g[AllCells(n)[i]]);
    }
    ShowingLineClues(n, g, line);
  }

  lemma ParseOfReadableLine(n: Dimension, line: string)
    requires n <= 3 && |line| == Side(n) * Side(n) && Readable(line)
    ensures CluesIn(n, LineClues(n, line)) && OnePerCell(LineClues(n, line))
    ensures Parse(line) == Parsed(n, PlaceAll(n, Fresh(n), LineClues(n, line)))
  {
    SectorDimensionIsFourthRoot(|line|, n);
    LineCluesExact(n, line);
  }

  lemma InRangeCluesAreFresh(n: Dimension, clues: seq<Clue>)
    requires CluesIn(n, clues) && forall x :: x in clues ==> x.value <= Side(n)
    ensures CluesAreCandidates(Fresh(n), clues)
  {
    forall x | x in clues
      ensures x.cell in Fresh(n) && x.value in Fresh(n)[x.cell]
    {
      var i :| 0 <= i < |clues| && clues[i] == x;
    }
  }

  /** Printing a settled grid in range and parsing it again gives a settled grid above it that meets its clues. */
  lemma ReparseAbove(n: Dimension, g: Board, line: string)
    requires Settled(n, g) && InRange(n, g) && n <= 3
    requires |line| == Side(n) * Side(n) && Readable(line)
    requires forall x :: x in LineClues(n, line) <==> x.cell in g && g[x.cell] == {x.value}
    ensures CluesIn(n, LineClues(n, line))
    ensures var h := PlaceAll(n, Fresh(n), LineClues(n, line));
            && Parse(line) == Parsed(n, h)
            && Below(g, h) && Settled(n, h) && Below(h, Fresh(n)) && MeetsClues(h, LineClues(n, line))
  {
    var clues := LineClues(n, line);
    ParseOfReadableLine(n, line);
    forall x | x in clues
      ensures x.value <= Side(n)
    {
      assert x.value in g[x.cell];
    }
    FreshSettled(n);
    InRangeCluesAreFresh(n, clues);
    assert MeetsClues(g, clues);
    PlaceAllGreatest(n, Fresh(n), clues);
  }

  lemma ReparseBelow(n: Dimension, g: Board, h: Board, clues: seq<Clue>)
    requires CluesIn(n, clues) && OnePerCell(clues) && g == PlaceAll(n, Fresh(n), clues)
    requires Settled(n, h) && Below(h, Fresh(n)) && MeetsClues(h, clues)
    ensures Below(h, g)
  {
    PlaceAllKeepsSettled(n, h, Fresh(n), clues);
  }

  lemma ParsedMeetsClues(n: Dimension, clues: seq<Clue>)
    requires CluesIn(n, clues) && OnePerCell(clues) && forall x :: x in clues ==> x.value <= Side(n)
    requires Possible(PlaceAll(n, Fresh(n), clues))
    ensures MeetsClues(PlaceAll(n, Fresh(n), clues), clues)
  {
    FreshSettled(n);
    InRangeCluesAreFresh(n, clues);
    PlaceAllGreatest(n, Fresh(n), clues);
  }

  /** The state line is a normal form: parsing it gives back every candidate of the grid it was printed from. */
  lemma StateLineNormalForm(line: string)
    requires Parse(line).Parsed? && LineInRange(Parse(line).n, line) && Possible(Parse(line).grid)
    ensures WellFormed(Parse(line).n, Parse(line).grid)
    ensures StateLine(Parse(line).n, Parse(line).grid).Some?
    ensures Parse(StateLine(Parse(line).n, Parse(line).grid).value) == Parse(line)
  {
    var n, clues := ParsedLine(line);
    var g := Parse(line).grid;
    ParseConsistent(line);
    ParsedMeetsClues(n, clues);
    var again := StateLineClues(n, g);
    ReparseAbove(n, g, again);
    var h := PlaceAll(n, Fresh(n), LineClues(n, again));
    forall x | x in clues
      ensures x.cell in h && h[x.cell] == {x.value}
    {
      assert x in LineClues(n, again);
    }
    ReparseBelow(n, g, h, clues);
    BelowBothWays(g, h);
  }

  /** Printing a filled-in sudoku and parsing the line gives the same grid, and so prints the same line again. */
  lemma SudokuRoundTrip(n: Dimension, s: Assignment)
    requires n <= 3 && ValidSudoku(n, s)
    ensures WellFormed(n, Shown(s)) && StateLine(n, Shown(s)).Some?
    ensures Parse(StateLine(n, Shown(s)).value) == Parsed(n, Shown(s))
  {
    var g := Shown(s);
    ValidMakesPeersDiffer(n, s);
    ShownSettled(n, s);
    ShownInRange(n, s);
    var line := StateLineClues(n, g);
    ReparseAbove(n, g, line);
    ShownMet(n, s, PlaceAll(n, Fresh(n), LineClues(n, line)), LineClues(n, line));
  }

  lemma ShownMet(n: Dimension, s: Assignment, h: Board, clues: seq<Clue>)
    requires forall x :: x in clues <==> x.cell in Shown(s) && Shown(s)[x.cell] == {x.value}
    requires MeetsClues(h, clues) && Below(Shown(s), h)
    ensures h == Shown(s)
  {
    forall c | c in s
      ensures h[c] == {s[c]}
    {
      assert Clue(c, s[c]) in clues;
    }
  }

  lemma ShownInRange(n: Dimension, s: Assignment)
    requires forall c :: c in s ==> s[c] <= Side(n)
    ensures InRange(n, Shown(s))
  {
  }
}
