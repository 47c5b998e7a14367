/** Comma-separated values as the shell prints them, and a reader that follows section 2 of RFC 4180. */
module Csv {
  import opened Bytes
  import opened Options
  import opened Quoting
  import opened Separators

  /** The bytes that force quotation: controls, space, both quotes, DEL and everything outside ASCII. */
  predicate Special(b: Byte) {
    b <= 32 || b == DOUBLE_QUOTE || b == SINGLE_QUOTE || 127 <= b
  }

  /**
   Whether a byte of a field makes the printer quote the field. For a separator of several bytes the source compares
   the separator with the start of the field, not with the bytes at hand.
   */
  predicate Triggers(z: Text, b: Byte, sep: Text) {
    Special(b) || (sep != [] && b == sep[0] && (|sep| == 1 || StartsWith(z, sep)))
  }

  predicate MustQuote(z: Text, sep: Text) {
    z == [] || exists i :: 0 <= i < |z| && Triggers(z, z[i], sep)
  }

  /**
   The fields that are quoted: the empty one, those that hold a control, a space, a quote of either kind, DEL or a byte
   outside ASCII, and those that hold a separator of one byte or start with a longer one.
   */
  predicate Delicate(z: Text, sep: Text) {
    || z == []
    || (exists i :: 0 <= i < |z| && (z[i] <= 32 || z[i] == '"' as int || z[i] == '\'' as int || 127 <= z[i]))
    || (|sep| == 1 && sep[0] in z)
    || (2 <= |sep| <= |z| && z[..|sep|] == sep)
  }

  lemma MustQuoteExact(z: Text, sep: Text)
    ensures MustQuote(z, sep) <==> Delicate(z, sep)
  {
    if MustQuote(z, sep) && z != [] {
      var i :| 0 <= i < |z| && Triggers(z, z[i], sep);
      assert !Special(z[i]) && |sep| == 1 ==> sep[0] in z;
    }
    if Delicate(z, sep) && z != [] {
      if i :| 0 <= i < |z| && (z[i] <= 32 || z[i] == '"' as int || z[i] == '\'' as int || 127 <= z[i]) {
        assert Triggers(z, z[i], sep);
      } else if |sep| == 1 {
        var i :| 0 <= i < |z| && z[i] == sep[0];
        assert Triggers(z, z[i], sep);
      } else {
        assert z[..|sep|][0] == z[0];
        assert Triggers(z, z[0], sep);
      }
    }
  }

  /** A delicate field is printed between double quotes with those inside it doubled, any other one as it is. */
  lemma FieldExact(z: Text, sep: Text)
    ensures Delicate(z, sep) ==> Field(z, sep) == ['"' as int] + Doubled(z, '"' as int) + ['"' as int]
    ensures !Delicate(z, sep) ==> Field(z, sep) == z && z[0] != '"' as int
  {
    hide MustQuote;
    MustQuoteExact(z, sep);
  }

  function Field(z: Text, sep: Text): Text {
    if MustQuote(z, sep) then Quoted(z, DOUBLE_QUOTE) else z
  }

  /** A row without its line end: the printed fields with the separator between them. */
  function Row(fields: seq<Text>, sep: Text): Text
    requires fields != []
    decreases |fields|
  {
    if |fields| == 1 then Field(fields[0], sep) else Field(fields[0], sep) + sep + Row(fields[1..], sep)
  }

  /**
   Reads a row: a field in double quotes ends at the closing quote, two quotes standing for one, and any other field
   ends where the separator first occurs. A quotation without an end, or followed by anything else than a separator,
   is no row.
   */
  function Read(text: Text, sep: Text): Option<seq<Text>>
    requires sep != []
    decreases |text|
  {
    if StartsWith(text, [DOUBLE_QUOTE]) then
      match ReadQuoted(text[1..], DOUBLE_QUOTE)
      case None => None
      case Some((content, rest)) =>
        if rest == [] then Some([content])
        else if StartsWith(rest, sep) then Prepend(content, Read(rest[|sep|..], sep))
        else None
    else
      var k := First(text, sep);
      if k == |text| then Some([text]) else Prepend(text[..k], Read(text[k + |sep|..], sep))
  }

  function Prepend(field: Text, fields: Option<seq<Text>>): Option<seq<Text>> {
    match fields
    case None => None
    case Some(rest) => Some([field] + rest)
  }

  /**
   The separator after an unquoted field is the one a reader finds, and the separator after a quoted field does not
   start with a quote, which a reader would take for a doubled one.
   */
  predicate ReadableField(z: Text, sep: Text, last: bool)
    requires sep != []
  {
    if MustQuote(z, sep) then last || sep[0] != DOUBLE_QUOTE
    else if last then Lacks(z, sep) else EndsAtSeparator(z, sep)
  }

  predicate ReadableRow(fields: seq<Text>, sep: Text)
    requires sep != [] && fields != []
  {
    forall i :: 0 <= i < |fields| ==> ReadableField(fields[i], sep, i == |fields| - 1)
  }

  lemma UnquotedStart(z: Text, sep: Text)
    requires !MustQuote(z, sep)
    ensures z != [] && z[0] != DOUBLE_QUOTE
  {
    assert !Triggers(z, z[0], sep);
  }

  lemma ReadLastField(z: Text, sep: Text)
    requires sep != []
    ensures Read(Field(z, sep), sep) == Some([z]) <==> ReadableField(z, sep, true)
  {
    if MustQuote(z, sep) {
      ReadQuotedInverts(z, DOUBLE_QUOTE, []);
      assert Field(z, sep)[1..] == Doubled(z, DOUBLE_QUOTE) + [DOUBLE_QUOTE] + [];
    } else {
      UnquotedStart(z, sep);
      var k := First(z, sep);
      if k < |z| {
        assert |z[..k]| < |z|;
      }
    }
  }

  lemma ReadQuotedField(z: Text, sep: Text, rest: Text)
    requires sep != [] && sep[0] != DOUBLE_QUOTE
    ensures Read(Quoted(z, DOUBLE_QUOTE) + sep + rest, sep) == Prepend(z, Read(rest, sep))
  {
    var text, after := Quoted(z, DOUBLE_QUOTE) + sep + rest, sep + rest;
    ReadQuotedInverts(z, DOUBLE_QUOTE, after);
    assert text[..1] == [DOUBLE_QUOTE];
    assert text[1..] == Doubled(z, DOUBLE_QUOTE) + [DOUBLE_QUOTE] + after;
    assert after[..|sep|] == sep && after[|sep|..] == rest;
  }

  lemma ReadQuotedTooFar(z: Text, sep: Text, rest: Text)
    requires sep != [] && sep[0] == DOUBLE_QUOTE
    ensures var r := Read(Quoted(z, DOUBLE_QUOTE) + sep + rest, sep); r.Some? ==> r.value != [] && r.value[0] != z
  {
    var text, after := Quoted(z, DOUBLE_QUOTE) + sep + rest, sep[1..] + rest;
    assert text[..1] == [DOUBLE_QUOTE];
    assert text[1..] == Doubled(z, DOUBLE_QUOTE) + [DOUBLE_QUOTE, DOUBLE_QUOTE] + after;
    ReadQuotedGoesOn(z, DOUBLE_QUOTE, after);
  }

  lemma ReadPlainField(z: Text, sep: Text, rest: Text)
    requires sep != [] && z != [] && z[0] != DOUBLE_QUOTE
    ensures EndsAtSeparator(z, sep) ==> Read(z + sep + rest, sep) == Prepend(z, Read(rest, sep))
    ensures !EndsAtSeparator(z, sep) ==>
      var r := Read(z + sep + rest, sep); r.Some? ==> r.value != [] && r.value[0] != z
  {
    hide First, ReadQuoted;
    var text := z + sep + rest;
    FirstIgnoresRest(z, sep, rest);
    assert text[..1][0] == z[0];
    var k := First(text, sep);
    var r := Prepend(text[..k], Read(text[k + |sep|..], sep));
    assert Read(text, sep) == r;
    if k == |z| {
      assert text[..k] == z && text[k + |sep|..] == rest;
    } else {
      assert |text[..k]| < |z|;
    }
  }

  /** Reading what starts with a printed field and a separator. */
  lemma ReadField(z: Text, sep: Text, rest: Text)
    requires sep != []
    ensures ReadableField(z, sep, false) ==> Read(Field(z, sep) + sep + rest, sep) == Prepend(z, Read(rest, sep))
    ensures !ReadableField(z, sep, false) ==>
      var r := Read(Field(z, sep) + sep + rest, sep); r.Some? ==> r.value != [] && r.value[0] != z
  {
    if MustQuote(z, sep) {
      if sep[0] == DOUBLE_QUOTE {
        ReadQuotedTooFar(z, sep, rest);
      } else {
        ReadQuotedField(z, sep, rest);
      }
    } else {
      UnquotedStart(z, sep);
      ReadPlainField(z, sep, rest);
    }
  }

  lemma ReadableTail(fields: seq<Text>, sep: Text)
    requires sep != [] && 2 <= |fields|
    ensures ReadableRow(fields, sep) <==> ReadableField(fields[0], sep, false) && ReadableRow(fields[1..], sep)
  {
    var rest := fields[1..];
    assert forall i :: 0 <= i < |rest| ==> rest[i] == fields[i + 1];
    if ReadableField(fields[0], sep, false) && ReadableRow(rest, sep) {
      forall i | 0 <= i < |fields|
        ensures ReadableField(fields[i], sep, i == |fields| - 1)
      {
        assert i > 0 ==> fields[i] == rest[i - 1];
      }
    }
  }

  /** Reading a printed row gives back its fields if and only if the row is readable. */
  lemma {:induction false} ReadRowIff(fields: seq<Text>, sep: Text)
    requires fields != [] && sep != []
    ensures Read(Row(fields, sep), sep) == Some(fields) <==> ReadableRow(fields, sep)
    decreases |fields|
  {
    if |fields| == 1 {
      ReadLastField(fields[0], sep);
      assert fields == [fields[0]];
    } else {
      var f, rest := fields[0], Read(Row(fields[1..], sep), sep);
      ReadableTail(fields, sep);
      ReadField(f, sep, Row(fields[1..], sep));
      ReadRowIff(fields[1..], sep);
      assert fields == [f] + fields[1..];
      if rest.Some? {
        assert ([f] + rest.value)[1..] == rest.value;
      }
    }
  }

  /**
   With a separator of one byte a row reads back, whatever its fields hold, if and only if the separator is not the
   double quote or only the last field is quoted.
   */
  lemma OneByteRowRoundTrip(fields: seq<Text>, b: Byte)
    requires fields != []
    ensures Read(Row(fields, [b]), [b]) == Some(fields)
            <==> b != DOUBLE_QUOTE || forall i :: 0 <= i < |fields| - 1 ==> !MustQuote(fields[i], [b])
  {
    forall i | 0 <= i < |fields|
      ensures ReadableField(fields[i], [b], i == |fields| - 1)
              <==> b != DOUBLE_QUOTE || i == |fields| - 1 || !MustQuote(fields[i], [b])
    {
      OneByteField(fields[i], b);
    }
    ReadRowIff(fields, [b]);
  }

  lemma OneByteField(z: Text, b: Byte)
    ensures !MustQuote(z, [b]) ==> EndsAtSeparator(z, [b]) && Lacks(z, [b])
  {
    if !MustQuote(z, [b]) {
      assert forall k :: 0 <= k < |z| ==> !Triggers(z, z[k], [b]);
      OneByteSeparator(z, b);
    }
  }

  /** With a separator of two bars, the field a||b is printed without quotes and read back as two fields. */
  lemma LongSeparatorExample()
    ensures var sep, z := [124, 124], [97, 124, 124, 98];
            Row([z], sep) == z && Read(Row([z], sep), sep) != Some([z])
  {
    var sep: Text, z: Text := [124, 124], [97, 124, 124, 98];
    assert z[..2][0] != sep[0];
    assert z[1..][..2] == sep;
    FirstExact(z, sep);
    ReadRowIff([z], sep);
  }

  // ----- several rows

  /** Where the first of two bytes occurs, or the length of the text if neither does. */
  function FirstOf(s: Text, a: Byte, b: Byte): (k: nat)
    ensures k <= |s| && (k < |s| ==> s[k] == a || s[k] == b)
    ensures forall j :: 0 <= j < k ==> s[j] != a && s[j] != b
    decreases |s|
  {
    if s == [] || s[0] == a || s[0] == b then 0 else FirstOf(s[1..], a, b) + 1
  }

  /**
   Reads the row a text starts with, and says what follows it. A row ends at a line feed, but not at one inside a
   quotation.
   */
  function ReadLine(text: Text, sep: Byte): (r: Option<(seq<Text>, Text)>)
    ensures r.Some? ==> |r.value.1| < |text|
    decreases |text|
  {
    if StartsWith(text, [DOUBLE_QUOTE]) then
      match ReadQuoted(text[1..], DOUBLE_QUOTE)
      case None => None
      case Some((content, rest)) =>
        if rest == [] then None
        else if rest[0] == NEWLINE then Some(([content], rest[1..]))
        else if rest[0] == sep then PrependTo(content, ReadLine(rest[1..], sep))
        else None
    else
      var k := FirstOf(text, sep, NEWLINE);
      if k == |text| then None
      else if text[k] == NEWLINE then Some(([text[..k]], text[k + 1..]))
      else PrependTo(text[..k], ReadLine(text[k + 1..], sep))
  }

  function PrependTo(field: Text, more: Option<(seq<Text>, Text)>): Option<(seq<Text>, Text)> {
    match more
    case None => None
    case Some((fields, rest)) => Some(([field] + fields, rest))
  }

  function ReadTable(text: Text, sep: Byte): Option<seq<seq<Text>>>
    decreases |text|
  {
    if text == [] then Some([])
    else
      match ReadLine(text, sep)
      case None => None
      case Some((row, rest)) =>
        match ReadTable(rest, sep)
        case None => None
        case Some(rows) => Some([row] + rows)
  }

  /** Rows one after the other, each with its line feed. */
  function Table(rows: seq<seq<Text>>, sep: Byte): Text
    requires forall i :: 0 <= i < |rows| ==> rows[i] != []
    decreases |rows|
  {
    if rows == [] then []
    else
      Row(rows[0], [sep]) + [NEWLINE] + Table(rows[1..], sep)
  }

  lemma FirstOfUnique(s: Text, a: Byte, b: Byte, k: nat)
    requires k < |s| && (s[k] == a || s[k] == b) && forall j :: 0 <= j < k ==> s[j] != a && s[j] != b
    ensures FirstOf(s, a, b) == k
  {
  }

  lemma PlainField(z: Text, sep: Byte)
    requires !MustQuote(z, [sep])
    ensures z != [] && z[0] != DOUBLE_QUOTE
    ensures forall j :: 0 <= j < |z| ==> z[j] != sep && z[j] != NEWLINE
  {
    UnquotedStart(z, [sep]);
    assert forall j :: 0 <= j < |z| ==> !Triggers(z, z[j], [sep]);
  }

  lemma ReadOneQuoted(z: Text, sep: Byte, after: Text)
    requires sep != DOUBLE_QUOTE && sep != NEWLINE && after != [] && (after[0] == sep || after[0] == NEWLINE)
    ensures ReadLine(Quoted(z, DOUBLE_QUOTE) + after, sep)
            == if after[0] == NEWLINE then Some(([z], after[1..])) else PrependTo(z, ReadLine(after[1..], sep))
  {
    hide PrependTo, Doubled, FirstOf;
    var text := Quoted(z, DOUBLE_QUOTE) + after;
    ReadQuotedInverts(z, DOUBLE_QUOTE, after);
    assert text[..1] == [DOUBLE_QUOTE];
    assert text[1..] == Doubled(z, DOUBLE_QUOTE) + [DOUBLE_QUOTE] + after;
  }

  lemma NotQuoted(text: Text)
    requires text != [] && text[0] != DOUBLE_QUOTE
    ensures !StartsWith(text, [DOUBLE_QUOTE])
  {
    assert text[..1][0] == text[0];
  }

  lemma ReadOnePlain(z: Text, sep: Byte, after: Text)
    requires !MustQuote(z, [sep]) && after != [] && (after[0] == sep || after[0] == NEWLINE)
    ensures ReadLine(z + after, sep)
            == if after[0] == NEWLINE then Some(([z], after[1..])) else PrependTo(z, ReadLine(after[1..], sep))
  {
    hide PrependTo, MustQuote, FirstOf, ReadQuoted, StartsWith;
    var text := z + after;
    PlainField(z, sep);
    NotQuoted(text);
    FirstOfUnique(text, sep, NEWLINE, |z|);
    assert text[..|z|] == z && text[|z| + 1..] == after[1..];
  }

  /** A printed field is read up to the separator or the line feed behind it. */
  lemma ReadOneField(z: Text, sep: Byte, after: Text)
    requires sep != DOUBLE_QUOTE && sep != NEWLINE && after != [] && (after[0] == sep || after[0] == NEWLINE)
    ensures ReadLine(Field(z, [sep]) + after, sep)
            == if after[0] == NEWLINE then Some(([z], after[1..])) else PrependTo(z, ReadLine(after[1..], sep))
  {
    hide MustQuote, ReadLine, PrependTo, Quoted;
    if MustQuote(z, [sep]) {
      ReadOneQuoted(z, sep, after);
    } else {
      ReadOnePlain(z, sep, after);
    }
  }

  lemma {:induction false} ReadOneRow(fields: seq<Text>, sep: Byte, rest: Text)
    requires fields != [] && sep != DOUBLE_QUOTE && sep != NEWLINE
    ensures ReadLine(Row(fields, [sep]) + [NEWLINE] + rest, sep) == Some((fields, rest))
    decreases |fields|
  {
    hide ReadLine, Field, MustQuote;
    if |fields| == 1 {
      ReadOneField(fields[0], sep, [NEWLINE] + rest);
      assert Row(fields, [sep]) + [NEWLINE] + rest == Field(fields[0], [sep]) + ([NEWLINE] + rest);
      assert ([NEWLINE] + rest)[1..] == rest && fields == [fields[0]];
    } else {
      var more := Row(fields[1..], [sep]) + [NEWLINE] + rest;
      ReadOneRow(fields[1..], sep, rest);
      ReadOneField(fields[0], sep, [sep] + more);
      assert Row(fields, [sep]) + [NEWLINE] + rest == Field(fields[0], [sep]) + ([sep] + more);
      assert ([sep] + more)[1..] == more && fields == [fields[0]] + fields[1..];
    }
  }

  /** Rows printed one after the other read back, line feeds inside fields included. */
  lemma {:induction false} TableRoundTrip(rows: seq<seq<Text>>, sep: Byte)
    requires sep != DOUBLE_QUOTE && sep != NEWLINE && forall i :: 0 <= i < |rows| ==> rows[i] != []
    ensures ReadTable(Table(rows, sep), sep) == Some(rows)
    decreases |rows|
  {
    hide ReadLine, Row;
    if rows != [] {
      ReadOneRow(rows[0], sep, Table(rows[1..], sep));
      TableRoundTrip(rows[1..], sep);
      assert rows == [rows[0]] + rows[1..];
    }
  }
}
