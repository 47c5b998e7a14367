/** The printing routines of the shell over an output stream, and the two routines that fill allocated buffers. */
module Printers {
  import opened Bytes
  import opened Options
  import opened Quoting
  import Csv
  import opened Escapes
  import Import
  import opened Separators

  datatype Mode = List | Semi | Csv

  type Row = seq<Option<Text>>

  /** The values of a row in list mode: NULL is shown by a text of its own. */
  function ListCells(row: Row, nullvalue: Text): (r: seq<Text>)
    ensures |r| == |row|
  {
    seq(|row|, i requires 0 <= i < |row| => if row[i].Some? then row[i].value else nullvalue)
  }

  function CsvCell(z: Option<Text>, sep: Text, nullvalue: Text): Text {
    if z.Some? then Csv.Field(z.value, sep) else nullvalue
  }

  function CsvCells(row: Row, sep: Text, nullvalue: Text): (r: seq<Text>)
    ensures |r| == |row|
  {
    seq(|row|, i requires 0 <= i < |row| => CsvCell(row[i], sep, nullvalue))
  }

  /** What is printed for a row. In list mode a row without columns prints nothing, not even a line end. */
  function RowText(mode: Mode, row: Row, sep: Text, nullvalue: Text): Text {
    match mode
    case List => if row == [] then [] else Join(ListCells(row, nullvalue), sep) + [NEWLINE]
    case Semi => if row == [] then [] else Join(ListCells(row, nullvalue), sep) + [59, NEWLINE]
    case Csv => (if row == [] then [] else Join(CsvCells(row, sep, nullvalue), sep)) + [NEWLINE]
  }

  /** How a value is printed: NULL by the text for it, never quoted, and any other value as it is, but in CSV mode as a field. */
  function CellShown(mode: Mode, z: Option<Text>, sep: Text, nullvalue: Text): Text {
    match z
    case None => nullvalue
    case Some(s) => if mode == Csv && Csv.Delicate(s, sep) then ['"' as int] + Doubled(s, '"' as int) + ['"' as int] else s
  }

  /**
   The text of a row, value by value. The last value is followed by the line end, which is a line feed, in semicolon mode
   with a semicolon before it; any other value is followed by the separator. A row without values is printed as a line
   feed in CSV mode, and not at all in the other modes.
   */
  lemma RowTextExact(mode: Mode, row: Row, sep: Text, nullvalue: Text)
    ensures row == [] ==> RowText(mode, row, sep, nullvalue) == if mode == Csv then [10] else []
    ensures |row| == 1 ==>
      RowText(mode, row, sep, nullvalue)
      == CellShown(mode, row[0], sep, nullvalue) + if mode == Semi then [';' as int, 10] else [10]
    ensures |row| > 1 ==>
      RowText(mode, row, sep, nullvalue)
      == CellShown(mode, row[0], sep, nullvalue) + sep + RowText(mode, row[1..], sep, nullvalue)
  {
    hide Csv.Field, Csv.Delicate;
    if row != [] {
      if row[0].Some? {
        Csv.FieldExact(row[0].value, sep);
      }
      var list, cells := ListCells(row, nullvalue), CsvCells(row, sep, nullvalue);
      assert list[1..] == ListCells(row[1..], nullvalue) && cells[1..] == CsvCells(row[1..], sep, nullvalue);
    }
  }

  /** A row without NULL is printed in CSV mode as the row the reader of the module Csv takes. */
  lemma {:induction false} CsvRowText(fields: seq<Text>, sep: Text, nullvalue: Text)
    requires fields != []
    ensures Join(CsvCells(Values(fields), sep, nullvalue), sep) == Csv.Row(fields, sep)
    decreases |fields|
  {
    var cells := CsvCells(Values(fields), sep, nullvalue);
    if |fields| > 1 {
      CsvRowText(fields[1..], sep, nullvalue);
      assert Values(fields)[1..] == Values(fields[1..]);
      assert cells[1..] == CsvCells(Values(fields[1..]), sep, nullvalue);
    }
  }

  function Values(fields: seq<Text>): (r: Row)
    ensures |r| == |fields|
  {
    seq(|fields|, i requires 0 <= i < |fields| => Some(fields[i]))
  }

  /** A row printed in CSV mode with a separator of one byte other than the double quote reads back. */
  lemma PrintedCsvRowReads(fields: seq<Text>, b: Byte, nullvalue: Text)
    requires fields != [] && b != DOUBLE_QUOTE
    ensures var text := RowText(Mode.Csv, Values(fields), [b], nullvalue);
            text != [] && text[|text| - 1] == NEWLINE && Csv.Read(text[..|text| - 1], [b]) == Some(fields)
  {
    CsvRowText(fields, [b], nullvalue);
    Csv.OneByteRowRoundTrip(fields, b);
    var text := RowText(Mode.Csv, Values(fields), [b], nullvalue);
    assert text[..|text| - 1] == Csv.Row(fields, [b]);
  }

  /** Rows printed one after the other. */
  function RowTexts(mode: Mode, rows: seq<Row>, sep: Text, nullvalue: Text): Text {
    if rows == [] then [] else RowText(mode, rows[0], sep, nullvalue) + RowTexts(mode, rows[1..], sep, nullvalue)
  }

  function TableValues(table: seq<seq<Text>>): (r: seq<Row>)
    ensures |r| == |table|
  {
    seq(|table|, i requires 0 <= i < |table| => Values(table[i]))
  }

  lemma {:induction false} CsvTableText(table: seq<seq<Text>>, sep: Byte, nullvalue: Text)
    requires forall i :: 0 <= i < |table| ==> table[i] != []
    ensures RowTexts(Mode.Csv, TableValues(table), [sep], nullvalue) == Csv.Table(table, sep)
    decreases |table|
  {
    hide Csv.Row, Csv.Field, CsvCell;
    if table != [] {
      CsvRowText(table[0], [sep], nullvalue);
      CsvTableText(table[1..], sep, nullvalue);
      assert TableValues(table)[1..] == TableValues(table[1..]);
    }
  }

  /** A table printed in CSV mode reads back, line feeds inside fields included. */
  lemma PrintedCsvTableReads(table: seq<seq<Text>>, b: Byte, nullvalue: Text)
    requires b != DOUBLE_QUOTE && b != NEWLINE && forall i :: 0 <= i < |table| ==> table[i] != []
    ensures Csv.ReadTable(RowTexts(Mode.Csv, TableValues(table), [b], nullvalue), b) == Some(table)
  {
    CsvTableText(table, b, nullvalue);
    Csv.TableRoundTrip(table, b);
  }

  lemma ListRowText(fields: seq<Text>, sep: Text, nullvalue: Text)
    requires fields != []
    ensures RowText(Mode.List, Values(fields), sep, nullvalue) == Join(fields, sep) + [NEWLINE]
  {
    assert ListCells(Values(fields), nullvalue) == fields;
  }

  /**
   A row printed in list mode, its line feed replaced by any end of a line: the importer gives back the fields if and
   only if they are separable.
   */
  lemma PrintedListRowImportIff(fields: seq<Text>, sep: Text, nullvalue: Text, rest: Text)
    requires fields != [] && sep != [] && Import.OnOneLine(sep) && forall f :: f in fields ==> Import.OnOneLine(f)
    requires rest != [] && Import.LineEnd(rest[0])
    ensures var text := RowText(Mode.List, Values(fields), sep, nullvalue);
            && text != [] && text[|text| - 1] == NEWLINE
            && (SplitOn(Import.Content(text[..|text| - 1] + rest), sep) == fields <==> Separable(fields, sep))
  {
    ListRowText(fields, sep, nullvalue);
    var text := RowText(Mode.List, Values(fields), sep, nullvalue);
    assert text[..|text| - 1] == Join(fields, sep);
    Import.ListRowImportIff(fields, sep, rest);
  }

  /** With a separator of one byte that no field contains, the importer gives back every row printed in list mode. */
  lemma PrintedListRowImports(fields: seq<Text>, b: Byte, nullvalue: Text, rest: Text)
    requires fields != [] && !Import.LineEnd(b) && forall f :: f in fields ==> Import.OnOneLine(f) && b !in f
    requires rest != [] && Import.LineEnd(rest[0])
    ensures var text := RowText(Mode.List, Values(fields), [b], nullvalue);
            text != [] && SplitOn(Import.Content(text[..|text| - 1] + rest), [b]) == fields
  {
    OneByteSplitJoin(fields, b);
    SplitJoinIff(fields, [b]);
    PrintedListRowImportIff(fields, [b], nullvalue, rest);
  }

  lemma {:induction false} JoinAppend(fields: seq<Text>, f: Text, sep: Text)
    requires fields != []
    ensures Join(fields + [f], sep) == Join(fields, sep) + sep + f
    decreases |fields|
  {
    if |fields| == 1 {
      assert (fields + [f])[1..] == [f];
    } else {
      assert (fields + [f])[1..] == fields[1..] + [f];
      JoinAppend(fields[1..], f, sep);
      var rest := Join(fields[1..], sep);
      assert fields[0] + sep + (rest + sep + f) == fields[0] + sep + rest + sep + f;
    }
  }

  /** The first k fields as printed: the separator behind each but the last of the row, the line end behind that. */
  function Printed(fields: seq<Text>, k: nat, sep: Text, lineEnd: Text): Text
    requires k <= |fields|
  {
    if k == 0 then []
    else Printed(fields, k - 1, sep, lineEnd) + fields[k - 1] + if k < |fields| then sep else lineEnd
  }

  lemma Regroup(a: Text, b: Text, c: Text, d: Text)
    ensures a + b + c + d == a + (b + c + d)
  {
  }

  lemma PrintedNext(fields: seq<Text>, k: nat, sep: Text, lineEnd: Text)
    requires k < |fields|
    ensures Printed(fields, k + 1, sep, lineEnd)
            == Printed(fields, k, sep, lineEnd) + fields[k] + if k < |fields| - 1 then sep else lineEnd
  {
  }

  lemma {:induction false} PrintedIsJoin(fields: seq<Text>, k: nat, sep: Text, lineEnd: Text)
    requires 0 < k <= |fields|
    ensures Printed(fields, k, sep, lineEnd) == Join(fields[..k], sep) + if k < |fields| then sep else lineEnd
    decreases k
  {
    if k == 1 {
      assert fields[..1] == [fields[0]];
      assert Printed(fields, 0, sep, lineEnd) == [];
    } else {
      PrintedIsJoin(fields, k - 1, sep, lineEnd);
      JoinAppend(fields[..k - 1], fields[k - 1], sep);
      assert fields[..k] == fields[..k - 1] + [fields[k - 1]];
    }
  }

  lemma PrintedRow(fields: seq<Text>, sep: Text, lineEnd: Text)
    ensures Printed(fields, |fields|, sep, lineEnd) == if fields == [] then [] else Join(fields, sep) + lineEnd
  {
    if fields != [] {
      PrintedIsJoin(fields, |fields|, sep, lineEnd);
      assert fields[..|fields|] == fields;
    }
  }

  /** Names are no NULL, so the text for that makes no difference. */
  lemma CsvHeaderIgnoresNull(names: seq<Text>, sep: Text, nullvalue: Text, other: Text)
    ensures RowText(Mode.Csv, Values(names), sep, nullvalue) == RowText(Mode.Csv, Values(names), sep, other)
  {
    assert CsvCells(Values(names), sep, nullvalue) == CsvCells(Values(names), sep, other);
  }

  lemma ListHeaderIgnoresNull(names: seq<Text>, nullvalue: Text, other: Text)
    ensures ListCells(Values(names), nullvalue) == ListCells(Values(names), other)
  {
  }

  /** Without a quote the text is appended as it is; otherwise between quotes, with those inside it doubled. */
  lemma AppendedExact(zAppend: Text, quote: Byte)
    ensures quote == 0 ==> Appended(zAppend, quote) == zAppend
    ensures quote != 0 ==>
      && Appended(zAppend, quote) == [quote] + Doubled(zAppend, quote) + [quote]
      && ReadQuoted(Appended(zAppend, quote)[1..], quote) == Some((zAppend, []))
  {
    if quote != 0 {
      QuotedReads(zAppend, quote);
    }
  }

  /** What appendText puts behind a text: a quote character other than NUL asks for quotation. */
  function Appended(zAppend: Text, quote: Byte): Text {
    if quote == NUL then zAppend else Quoted(zAppend, quote)
  }

  /** The line with the names of the columns, which ends in a line feed in semicolon mode too. */
  function HeaderText(mode: Mode, names: seq<Text>, sep: Text): Text {
    RowText(if mode == Semi then List else mode, Values(names), sep, [])
  }

  /** The header line is a row of the names that ends in a line feed alone. */
  lemma HeaderTextExact(mode: Mode, names: seq<Text>, sep: Text)
    ensures names == [] ==> HeaderText(mode, names, sep) == if mode == Csv then [10] else []
    ensures |names| == 1 ==> HeaderText(mode, names, sep) == CellShown(mode, Some(names[0]), sep, []) + [10]
    ensures |names| > 1 ==>
      HeaderText(mode, names, sep) == CellShown(mode, Some(names[0]), sep, []) + sep + HeaderText(mode, names[1..], sep)
  {
    hide RowText, Csv.Delicate;
    RowTextExact(if mode == Semi then List else mode, Values(names), sep, []);
    if names != [] {
      assert Values(names)[1..] == Values(names[1..]);
    }
  }

  class CallbackData {
    var written: Text
    var mode: Mode
    var cnt: nat
    var showHeader: bool
    var separator: Text
    var nullvalue: Text
    var zDestTable: array?<Byte>

    method Print(s: Text)
      modifies this`written
      ensures written == old(written) + s
    {
      written := written + s;
    }

    method PrintEscaped(c: Byte)
      modifies this`written
      ensures written == old(written) + EscapeByte(c)
    {
      if c == BACKSLASH {
        Print([c]);
        Print([c]);
      } else if c == TAB {
        Print([BACKSLASH]);
        Print([LOWER_T]);
      } else if c == NEWLINE {
        Print([BACKSLASH]);
        Print([LOWER_N]);
      } else if c == RETURN {
        Print([BACKSLASH]);
        Print([LOWER_R]);
      } else if !Printable(c) {
        Print([BACKSLASH, ZERO + c / 64, ZERO + c / 8 % 8, ZERO + c % 8]);
      } else {
        Print([c]);
      }
    }

    /** Prints a text between double quotes with C escapes; double quotes inside are left as they are. */
    method OutputCString(z: Text)
      requires NulFree(z)
      modifies this`written
      ensures written == old(written) + [DOUBLE_QUOTE] + Escape(z) + [DOUBLE_QUOTE]
    {
      hide EscapeByte;
      Print([DOUBLE_QUOTE]);
      ghost var start := written;
      for i := 0 to |z|
        invariant written == start + Escape(z[..i])
      {
        assert z[..i + 1] == z[..i] + [z[i]];
        EscapeAppend(z[..i], z[i]);
        PrintEscaped(z[i]);
      }
      assert z[..|z|] == z;
      Print([DOUBLE_QUOTE]);
    }

    static method CountQuotes(z: Text, quote: Byte) returns (n: nat)
      ensures n == Count(z, quote)
    {
      n := 0;
      for i := 0 to |z|
        invariant n == Count(z[..i], quote)
      {
        assert z[..i + 1] == z[..i] + [z[i]];
        DoubledAppend(z[..i], z[i], quote);
        if z[i] == quote {
          n := n + 1;
        }
      }
      assert z[..|z|] == z;
    }

    /** Prints from an index on up to and with the next quote, which is written twice. */
    method PrintChunk(z: Text, p: nat) returns (next: nat)
      requires p < |z|
      modifies this`written
      ensures p < next <= |z| && written == old(written) + Doubled(z[p..next], SINGLE_QUOTE)
    {
      hide Doubled, Count;
      var i := p;
      while i < |z| && z[i] != SINGLE_QUOTE
        invariant p <= i <= |z| && SINGLE_QUOTE !in z[p..i]
        decreases |z| - i
      {
        assert z[p..i + 1] == z[p..i] + [z[i]];
        i := i + 1;
      }
      DoubledWithoutQuotes(z[p..i], SINGLE_QUOTE);
      if i < |z| {
        assert z[p..i + 1] == z[p..i] + [z[i]];
        DoubledAppend(z[p..i], z[i], SINGLE_QUOTE);
      }
      if i == p {
        assert z[p..i] == [];
        Print([SINGLE_QUOTE, SINGLE_QUOTE]);
        next := p + 1;
      } else if i < |z| {
        Print(z[p..i] + [SINGLE_QUOTE, SINGLE_QUOTE]);
        next := i + 1;
      } else {
        Print(z[p..]);
        next := |z|;
      }
    }

    /** Prints a text between single quotes, in chunks that end at the quotes inside it. */
    method OutputQuotedString(z: Text)
      requires NulFree(z)
      modifies this`written
      ensures written == old(written) + Quoted(z, SINGLE_QUOTE)
    {
      var nSingle := CountQuotes(z, SINGLE_QUOTE);
      DoubledWithoutQuotes(z, SINGLE_QUOTE);
      if nSingle == 0 {
        Print([SINGLE_QUOTE] + z + [SINGLE_QUOTE]);
      } else {
        Print([SINGLE_QUOTE]);
        ghost var start := written;
        var p := 0;
        while p < |z|
          invariant p <= |z| && written == start + Doubled(z[..p], SINGLE_QUOTE)
          decreases |z| - p
        {
          var next := PrintChunk(z, p);
          assert z[..next] == z[..p] + z[p..next];
          DoubledConcat(z[..p], z[p..next], SINGLE_QUOTE);
          p := next;
        }
        assert z[..p] == z;
        Print([SINGLE_QUOTE]);
      }
    }

    method NeedsCsvQuotes(z: Text) returns (quote: bool)
      ensures quote <==> Csv.MustQuote(z, separator)
      ensures quote <==> Csv.Delicate(z, separator)
    {
      Csv.MustQuoteExact(z, separator);
      if z == [] {
        return true;
      }
      for i := 0 to |z|
        invariant forall k :: 0 <= k < i ==> !Csv.Triggers(z, z[k], separator)
      {
        if Csv.Triggers(z, z[i], separator) {
          return true;
        }
      }
      return false;
    }

    method PrintInDoubleQuotes(z: Text)
      modifies this`written
      ensures written == old(written) + Quoted(z, DOUBLE_QUOTE)
    {
      Print([DOUBLE_QUOTE]);
      ghost var start := written;
      for i := 0 to |z|
        invariant written == start + Doubled(z[..i], DOUBLE_QUOTE)
      {
        assert z[..i + 1] == z[..i] + [z[i]];
        DoubledAppend(z[..i], z[i], DOUBLE_QUOTE);
        if z[i] == DOUBLE_QUOTE {
          Print([DOUBLE_QUOTE]);
        }
        Print([z[i]]);
      }
      assert z[..|z|] == z;
      Print([DOUBLE_QUOTE]);
    }

    /** Prints one term of a CSV row, and the separator if there is another term to come. */
    method OutputCsv(z: Option<Text>, bSep: bool)
      requires z.Some? ==> NulFree(z.value)
      modifies this`written
      ensures written == old(written) + CsvCell(z, separator, nullvalue) + if bSep then separator else []
      ensures written == old(written)
                         + (match z
                            case None => nullvalue
                            case Some(s) =>
                              if Csv.Delicate(s, separator) then ['"' as int] + Doubled(s, '"' as int) + ['"' as int] else s)
                         + if bSep then separator else []
    {
      if z.Some? {
        Csv.FieldExact(z.value, separator);
      }
      if z.None? {
        Print(nullvalue);
      } else {
        var quote := NeedsCsvQuotes(z.value);
        if quote {
          PrintInDoubleQuotes(z.value);
        } else {
          Print(z.value);
        }
      }
      if bSep {
        Print(separator);
      }
    }

    method CsvRow(row: Row)
      requires forall z :: z in row && z.Some? ==> NulFree(z.value)
      modifies this`written
      ensures written == old(written) + RowText(Mode.Csv, row, separator, nullvalue)
    {
      hide Join, CsvCell;
      ghost var start, cells := written, CsvCells(row, separator, nullvalue);
      for i := 0 to |row|
        invariant written == start + Printed(cells, i, separator, [])
      {
        assert row[i] in row;
        PrintedNext(cells, i, separator, []);
        OutputCsv(row[i], i < |row| - 1);
      }
      PrintedRow(cells, separator, []);
      Print([NEWLINE]);
    }

    method ListRow(row: Row, lineEnd: Text)
      modifies this`written
      ensures written
              == old(written) + if row == [] then [] else Join(ListCells(row, nullvalue), separator) + lineEnd
    {
      ghost var start, texts := written, ListCells(row, nullvalue);
      for i := 0 to |row|
        invariant written == start + Printed(texts, i, separator, lineEnd)
      {
        PrintedNext(texts, i, separator, lineEnd);
        var behind := if i < |row| - 1 then separator else lineEnd;
        PrintListColumn(row[i], behind);
        Regroup(start, Printed(texts, i, separator, lineEnd), texts[i], behind);
      }
      PrintedRow(texts, separator, lineEnd);
    }

    method PrintListColumn(z: Option<Text>, behind: Text)
      modifies this`written
      ensures written == old(written) + (if z.Some? then z.value else nullvalue) + behind
    {
      Print(if z.Some? then z.value else nullvalue);
      Print(behind);
    }

    method HeaderRow(names: seq<Text>)
      requires forall z :: z in names ==> NulFree(z)
      modifies this`written
      ensures written == old(written) + HeaderText(mode, names, separator)
    {
      if mode == Csv {
        CsvHeaderIgnoresNull(names, separator, nullvalue, []);
        CsvRow(Values(names));
      } else {
        ListHeaderIgnoresNull(names, nullvalue, []);
        ListRow(Values(names), [NEWLINE]);
      }
    }

    /**
     Prints a row of a result in list, semicolon or CSV mode, and before the first one the names of the columns if they
     are to be shown. For a result without rows there are no values, only names.
     */
    method Callback(names: seq<Text>, values: Option<Row>)
      requires forall z :: z in names ==> NulFree(z)
      requires values.Some? ==> forall z :: z in values.value && z.Some? ==> NulFree(z.value)
      modifies this`written, this`cnt
      ensures cnt == old(cnt) + 1
      ensures written == old(written)
                         + (if old(cnt) == 0 && showHeader then HeaderText(mode, names, separator) else [])
                         + (if values.Some? then RowText(mode, values.value, separator, nullvalue) else [])
    {
      hide HeaderText, Join, ListCells;
      cnt := cnt + 1;
      if cnt == 1 && showHeader {
        HeaderRow(names);
      }
      if values.Some? {
        match mode {
          case List => ListRow(values.value, [NEWLINE]);
          case Semi => ListRow(values.value, [59, NEWLINE]);
          case Csv => CsvRow(values.value);
        }
      }
    }

    /** How many bytes the appended text takes up. */
    static method MeasureAppended(zAppend: Text, quote: Byte) returns (len: nat)
      ensures len == |Appended(zAppend, quote)|
    {
      len := |zAppend|;
      DoubledSize(zAppend, quote);
      if quote != NUL {
        var quotes := CountQuotes(zAppend, quote);
        len := len + 2 + quotes;
      }
    }

    static method FillAppended(buffer: array<Byte>, at: nat, zAppend: Text, quote: Byte) returns (next: nat)
      requires at + |Appended(zAppend, quote)| <= buffer.Length
      modifies buffer
      ensures next == at + |Appended(zAppend, quote)|
      ensures buffer[..next] == old(buffer[..at]) + Appended(zAppend, quote)
    {
      if quote != NUL {
        next := FillQuoted(buffer, at, zAppend, quote);
      } else {
        next := Fill(buffer, at, zAppend);
      }
    }

    static method FillQuoted(buffer: array<Byte>, at: nat, s: Text, quote: Byte) returns (next: nat)
      requires at + |Quoted(s, quote)| <= buffer.Length
      modifies buffer
      ensures next == at + |Quoted(s, quote)| && buffer[..next] == old(buffer[..at]) + Quoted(s, quote)
    {
      ghost var base, middle := buffer[..at], Doubled(s, quote);
      next := Fill(buffer, at, [quote]);
      next := FillDoubled(buffer, next, s, quote);
      assert buffer[..next] == base + [quote] + middle;
      next := Fill(buffer, next, [quote]);
      assert base + [quote] + middle + [quote] == base + ([quote] + middle + [quote]);
    }

    /** The text of the given buffer with the appended text behind it, in a buffer of just the size it needs. */
    static method AppendText(zIn: array?<Byte>, zAppend: Text, quote: Byte) returns (r: array<Byte>)
      requires zIn != null ==> Terminated(zIn[..])
      requires NulFree(zAppend)
      ensures fresh(r)
      ensures r[..] == (if zIn == null then [] else CString(zIn[..])) + Appended(zAppend, quote) + [NUL]
    {
      var base: Text := [];
      if zIn != null {
        base := CString(zIn[..]);
      }
      var size := MeasureAppended(zAppend, quote);
      var len := |base| + size + 1;
      r := new Byte[len](_ => NUL);
      FillBehind(r, base, zAppend, quote);
    }

    /** Fills a buffer that is just large enough. */
    static method FillBehind(buffer: array<Byte>, base: Text, zAppend: Text, quote: Byte)
      requires buffer.Length == |base| + |Appended(zAppend, quote)| + 1
      modifies buffer
      ensures buffer[..] == base + Appended(zAppend, quote) + [NUL]
    {
      var zCsr := Fill(buffer, 0, base);
      assert buffer[..zCsr] == base;
      zCsr := FillAppended(buffer, zCsr, zAppend, quote);
      zCsr := Fill(buffer, zCsr, [NUL]);
      assert zCsr == buffer.Length && buffer[..zCsr] == buffer[..];
    }

    /** Writes a text to a buffer from an index on. */
    static method Fill(buffer: array<Byte>, at: nat, s: Text) returns (next: nat)
      requires at + |s| <= buffer.Length
      modifies buffer
      ensures next == at + |s| && buffer[..next] == old(buffer[..at]) + s
    {
      for i := 0 to |s|
        invariant buffer[..at + i] == old(buffer[..at]) + s[..i]
      {
        buffer[at + i] := s[i];
        assert buffer[..at + i + 1] == old(buffer[..at]) + s[..i] + [s[i]];
        assert s[..i + 1] == s[..i] + [s[i]];
      }
      assert s[..|s|] == s;
      next := at + |s|;
    }

    /** Writes a text to a buffer from an index on, each quote in it twice. */
    static method FillDoubled(buffer: array<Byte>, at: nat, s: Text, quote: Byte) returns (next: nat)
      requires at + |Doubled(s, quote)| <= buffer.Length
      modifies buffer
      ensures next == at + |Doubled(s, quote)| && buffer[..next] == old(buffer[..at]) + Doubled(s, quote)
    {
      next := at;
      for i := 0 to |s|
        invariant at <= next && next + |Doubled(s[i..], quote)| == at + |Doubled(s, quote)|
        invariant buffer[..next] == old(buffer[..at]) + Doubled(s[..i], quote)
      {
        assert s[i..][0] == s[i] && s[i..][1..] == s[i + 1..];
        assert s[..i + 1] == s[..i] + [s[i]];
        DoubledAppend(s[..i], s[i], quote);
        next := Fill(buffer, next, if s[i] == quote then [s[i], quote] else [s[i]]);
      }
      assert s[..|s|] == s && s[|s|..] == [];
    }

    /** Sets the name of the destination table, quoted if it is not an identifier. */
    method SetTableName(zName: Option<Text>)
      requires zName.Some? ==> NulFree(zName.value)
      modifies this`zDestTable
      ensures zName.None? ==> zDestTable == null
      ensures zName.Some? ==> zDestTable != null && fresh(zDestTable) && zDestTable[..] == TableName(zName.value) + [NUL]
    {
      hide Doubled, Count, NeedsQuotes, NulFree;
      zDestTable := null;
      if zName.None? {
        return;
      }
      var name := zName.value;
      var needQuote, n := MeasureName(name);
      if needQuote {
        n := n + 2;
      }
      DoubledSize(name, SINGLE_QUOTE);
      var z := new Byte[n + 1](_ => NUL);
      var at := 0;
      if needQuote {
        at := FillAppended(z, 0, name, SINGLE_QUOTE);
      } else {
        at := FillDoubled(z, 0, name, SINGLE_QUOTE);
      }
      at := Fill(z, at, [NUL]);
      assert at == n + 1 && z[..at] == z[..];
      zDestTable := z;
    }

    /** Whether a name needs quotes, and how many bytes it takes up with its quotes doubled. */
    static method MeasureName(name: Text) returns (needQuote: bool, n: nat)
      ensures needQuote == NeedsQuotes(name) && n == |name| + Count(name, SINGLE_QUOTE)
      ensures !needQuote ==> Doubled(name, SINGLE_QUOTE) == name
    {
      needQuote := name == [] || !(Letter(name[0]) || name[0] == 95);
      n := 0;
      for i := 0 to |name|
        invariant n == i + Count(name[..i], SINGLE_QUOTE)
        invariant needQuote <==> name == [] || !(Letter(name[0]) || name[0] == 95)
                                 || exists k :: 0 <= k < i && !NameByte(name[k])
      {
        assert name[..i + 1] == name[..i] + [name[i]];
        DoubledAppend(name[..i], name[i], SINGLE_QUOTE);
        if !NameByte(name[i]) {
          needQuote := true;
          if name[i] == SINGLE_QUOTE {
            n := n + 1;
          }
        }
        n := n + 1;
      }
      assert name[..|name|] == name;
      DoubledWithoutQuotes(name, SINGLE_QUOTE);
    }
  }
}
