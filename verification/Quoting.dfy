/** Quotation by doubling: what the quoting routines of the shell write, and how it is read back. */
module Quoting {
  import opened Bytes
  import opened Options

  /** The text with every quote character written twice. */
  function Doubled(s: Text, q: Byte): Text {
    if s == [] then [] else (if s[0] == q then [q, q] else [s[0]]) + Doubled(s[1..], q)
  }

  /** How often a byte occurs. */
  function Count(s: Text, q: Byte): nat {
    if s == [] then 0 else (if s[0] == q then 1 else 0) + Count(s[1..], q)
  }

  function Quoted(s: Text, q: Byte): Text {
    [q] + Doubled(s, q) + [q]
  }

  /** Where the quotation that starts a text ends, reading two quotes as one: its content and what follows it. */
  function ReadQuoted(t: Text, q: Byte): (r: Option<(Text, Text)>)
    ensures r.Some? ==> |r.value.1| < |t|
    decreases |t|
  {
    if t == [] then None
    else if t[0] != q then
      match ReadQuoted(t[1..], q)
      case None => None
      case Some((content, rest)) => Some(([t[0]] + content, rest))
    else if |t| >= 2 && t[1] == q then
      match ReadQuoted(t[2..], q)
      case None => None
      case Some((content, rest)) => Some(([q] + content, rest))
    else Some(([], t[1..]))
  }

  lemma {:induction false} DoubledSize(s: Text, q: Byte)
    ensures |Doubled(s, q)| == |s| + Count(s, q)
    decreases |s|
  {
    if s != [] {
      DoubledSize(s[1..], q);
    }
  }

  lemma {:induction false} DoubledConcat(s: Text, t: Text, q: Byte)
    ensures Doubled(s + t, q) == Doubled(s, q) + Doubled(t, q)
    ensures Count(s + t, q) == Count(s, q) + Count(t, q)
    decreases |s|
  {
    if s == [] {
      assert s + t == t;
    } else {
      assert (s + t)[1..] == s[1..] + t;
      DoubledConcat(s[1..], t, q);
    }
  }

  lemma {:induction false} DoubledWithoutQuotes(s: Text, q: Byte)
    ensures q !in s <==> Count(s, q) == 0
    ensures q !in s ==> Doubled(s, q) == s
    decreases |s|
  {
    if s != [] {
      assert s == [s[0]] + s[1..];
      DoubledWithoutQuotes(s[1..], q);
    }
  }

  /** Reading a quotation gives back the text, whatever follows, provided that is not another quote. */
  lemma {:induction false} ReadQuotedInverts(s: Text, q: Byte, rest: Text)
    requires rest != [] ==> rest[0] != q
    ensures ReadQuoted(Doubled(s, q) + [q] + rest, q) == Some((s, rest))
    decreases |s|
  {
    hide Count;
    var t := Doubled(s, q) + [q] + rest;
    if s == [] {
      assert t[1..] == rest;
    } else {
      var more := Doubled(s[1..], q) + [q] + rest;
      ReadQuotedInverts(s[1..], q, rest);
      if s[0] == q {
        assert t[2..] == more;
      } else {
        assert t[1..] == more;
      }
      assert [s[0]] + s[1..] == s;
    }
  }

  /** A quotation followed by another quote is read on, as if the two were doubled. */
  lemma {:induction false} ReadQuotedGoesOn(s: Text, q: Byte, rest: Text)
    ensures var r := ReadQuoted(Doubled(s, q) + [q, q] + rest, q); r.Some? ==> |r.value.0| > |s|
    decreases |s|
  {
    var t := Doubled(s, q) + [q, q] + rest;
    if s == [] {
      assert t[0] == q && t[1] == q;
    } else {
      var more := Doubled(s[1..], q) + [q, q] + rest;
      ReadQuotedGoesOn(s[1..], q, rest);
      if s[0] == q {
        assert t[2..] == more;
      } else {
        assert t[1..] == more;
      }
    }
  }

  lemma DoubledAppend(s: Text, b: Byte, q: Byte)
    ensures Doubled(s + [b], q) == Doubled(s, q) + if b == q then [q, q] else [b]
    ensures Count(s + [b], q) == Count(s, q) + if b == q then 1 else 0
  {
    DoubledConcat(s, [b], q);
    assert Doubled([b], q) == (if b == q then [q, q] else [b]) + [];
  }

  // ----- table names

  predicate NameByte(b: Byte) {
    Letter(b) || Digit(b) || b == 95
  }

  /** A table name needs quotes unless it is an identifier. */
  predicate NeedsQuotes(name: Text) {
    name == [] || Digit(name[0]) || exists i :: 0 <= i < |name| && !NameByte(name[i])
  }

  /** The names that are quoted: the empty one, those that start with a digit, and those with a byte no identifier has. */
  lemma NeedsQuotesExact(name: Text)
    ensures NeedsQuotes(name)
            <==> name == []
                 || '0' as int <= name[0] <= '9' as int
                 || exists i :: 0 <= i < |name|
                       && !('a' as int <= name[i] <= 'z' as int || 'A' as int <= name[i] <= 'Z' as int
                            || '0' as int <= name[i] <= '9' as int || name[i] == '_' as int)
    ensures NeedsQuotes(name) ==> TableName(name) == ['\'' as int] + Doubled(name, '\'' as int) + ['\'' as int]
    ensures !NeedsQuotes(name) ==> TableName(name) == name
  {
    if i :| 0 <= i < |name|
            && !('a' as int <= name[i] <= 'z' as int || 'A' as int <= name[i] <= 'Z' as int
                 || '0' as int <= name[i] <= '9' as int || name[i] == '_' as int) {
      assert !NameByte(name[i]);
    }
  }

  function TableName(name: Text): Text {
    if NeedsQuotes(name) then Quoted(name, SINGLE_QUOTE) else name
  }

  /** Reads a table name, quoted or not. */
  function ReadName(t: Text): Option<Text> {
    if t != [] && t[0] == SINGLE_QUOTE then
      match ReadQuoted(t[1..], SINGLE_QUOTE)
      case Some((name, rest)) => if rest == [] then Some(name) else None
      case None => None
    else Some(t)
  }

  lemma QuotedReads(s: Text, q: Byte)
    ensures Quoted(s, q)[0] == q && ReadQuoted(Quoted(s, q)[1..], q) == Some((s, []))
  {
    ReadQuotedInverts(s, q, []);
    assert Quoted(s, q)[1..] == Doubled(s, q) + [q] + [];
  }

  /** Whether or not it needs quotes, the name can be read back. */
  lemma TableNameReads(name: Text)
    ensures ReadName(TableName(name)) == Some(name)
  {
    if NeedsQuotes(name) {
      QuotedReads(name, SINGLE_QUOTE);
    } else {
      assert NameByte(name[0]);
    }
  }
}
