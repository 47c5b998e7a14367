/**
 Joining fields by a separator and splitting a text at its leftmost non-overlapping occurrences. For separators of
 several bytes the two are inverse only under a condition on the fields, which is found here exactly.
 */
module Separators {
  import opened Bytes

  predicate StartsWith(s: Text, sep: Text) {
    |sep| <= |s| && s[..|sep|] == sep
  }

  /** Where the separator first occurs, or the length of the text if it does not. */
  function First(s: Text, sep: Text): (k: nat)
    requires sep != []
    ensures k <= |s| && (k < |s| ==> k + |sep| <= |s|)
    decreases |s|
  {
    if s == [] || StartsWith(s, sep) then 0 else First(s[1..], sep) + 1
  }

  lemma {:induction false} FirstExact(s: Text, sep: Text)
    requires sep != []
    ensures First(s, sep) < |s| ==> StartsWith(s[First(s, sep)..], sep)
    ensures forall j :: 0 <= j < First(s, sep) ==> !StartsWith(s[j..], sep)
    decreases |s|
  {
    assert s[0..] == s;
    if s != [] && !StartsWith(s, sep) {
      var k := First(s[1..], sep);
      FirstExact(s[1..], sep);
      assert s[1..][k..] == s[k + 1..];
      forall j | 0 <= j < k + 1
        ensures !StartsWith(s[j..], sep)
      {
        if j > 0 {
          assert s[1..][j - 1..] == s[j..];
        }
      }
    }
  }

  lemma FirstUnique(s: Text, sep: Text, k: nat)
    requires sep != [] && k <= |s|
    requires k < |s| ==> StartsWith(s[k..], sep)
    requires forall j :: 0 <= j < k ==> !StartsWith(s[j..], sep)
    ensures First(s, sep) == k
  {
    FirstExact(s, sep);
  }

  function SplitOn(s: Text, sep: Text): (fields: seq<Text>)
    requires sep != []
    ensures fields != []
    decreases |s|
  {
    var k := First(s, sep);
    if k == |s| then [s] else [s[..k]] + SplitOn(s[k + |sep|..], sep)
  }

  function Join(fields: seq<Text>, sep: Text): Text
    requires fields != []
    decreases |fields|
  {
    if |fields| == 1 then fields[0] else fields[0] + sep + Join(fields[1..], sep)
  }

  /** The separator put after a field is also where it first occurs. */
  predicate EndsAtSeparator(f: Text, sep: Text)
    requires sep != []
  {
    First(f + sep, sep) == |f|
  }

  /** The separator does not occur in the field. */
  predicate Lacks(f: Text, sep: Text)
    requires sep != []
  {
    First(f, sep) == |f|
  }

  /** What a splitter needs to know of the fields: the separators between them are the ones it finds. */
  predicate Separable(fields: seq<Text>, sep: Text)
    requires sep != [] && fields != []
  {
    && (forall i :: 0 <= i < |fields| - 1 ==> EndsAtSeparator(fields[i], sep))
    && Lacks(fields[|fields| - 1], sep)
  }

  /** The text after a separator has no influence on where the separator first occurs. */
  lemma FirstIgnoresRest(f: Text, sep: Text, rest: Text)
    requires sep != []
    ensures First(f + sep + rest, sep) == First(f + sep, sep) <= |f|
  {
    var s, t := f + sep + rest, f + sep;
    var k := First(t, sep);
    FirstExact(t, sep);
    assert t[|f|..] == sep;
    forall j | 0 <= j <= |f|
      ensures StartsWith(s[j..], sep) <==> StartsWith(t[j..], sep)
    {
      assert s[j..][..|sep|] == t[j..][..|sep|];
    }
    FirstUnique(s, sep, k);
  }

  /** The first piece of a text that starts with a field and the separator. */
  lemma SplitAfterField(f: Text, sep: Text, rest: Text)
    requires sep != []
    ensures EndsAtSeparator(f, sep) ==> SplitOn(f + sep + rest, sep) == [f] + SplitOn(rest, sep)
    ensures !EndsAtSeparator(f, sep) ==> SplitOn(f + sep + rest, sep)[0] != f
  {
    var s := f + sep + rest;
    FirstIgnoresRest(f, sep, rest);
    var k := First(s, sep);
    assert k < |s|;
    if EndsAtSeparator(f, sep) {
      assert s[..k] == f && s[k + |sep|..] == rest;
    } else {
      assert |s[..k]| < |f|;
    }
  }

  lemma SplitSingle(f: Text, sep: Text)
    requires sep != []
    ensures SplitOn(f, sep) == [f] <==> Lacks(f, sep)
  {
    var k := First(f, sep);
    if k < |f| {
      assert |SplitOn(f, sep)| == 1 + |SplitOn(f[k + |sep|..], sep)|;
    }
  }

  lemma SeparableTail(fields: seq<Text>, sep: Text)
    requires sep != [] && 2 <= |fields|
    ensures Separable(fields, sep) <==> EndsAtSeparator(fields[0], sep) && Separable(fields[1..], sep)
  {
    var rest := fields[1..];
    assert forall i :: 0 <= i < |rest| ==> rest[i] == fields[i + 1];
    if EndsAtSeparator(fields[0], sep) && Separable(rest, sep) {
      forall i | 0 <= i < |fields| - 1
        ensures EndsAtSeparator(fields[i], sep)
      {
        assert i > 0 ==> fields[i] == rest[i - 1];
      }
    }
  }

  /** Splitting a joined text gives back the fields if and only if they are separable. */
  lemma {:induction false} SplitJoinIff(fields: seq<Text>, sep: Text)
    requires sep != [] && fields != []
    ensures SplitOn(Join(fields, sep), sep) == fields <==> Separable(fields, sep)
    decreases |fields|
  {
    if |fields| == 1 {
      SplitSingle(fields[0], sep);
      assert fields == [fields[0]];
    } else {
      var f, rest := fields[0], SplitOn(Join(fields[1..], sep), sep);
      SeparableTail(fields, sep);
      SplitAfterField(f, sep, Join(fields[1..], sep));
      SplitJoinIff(fields[1..], sep);
      assert fields == [f] + fields[1..];
      assert ([f] + rest)[1..] == rest;
    }
  }

  /** For a separator of one byte, a field is fine exactly when it is free of the byte. */
  lemma OneByteSeparator(f: Text, b: Byte)
    ensures EndsAtSeparator(f, [b]) <==> b !in f
    ensures Lacks(f, [b]) <==> b !in f
  {
    forall j | 0 <= j < |f|
      ensures StartsWith(f[j..], [b]) <==> f[j] == b
      ensures StartsWith((f + [b])[j..], [b]) <==> f[j] == b
    {
      assert f[j..][..1] == [f[j]];
      assert (f + [b])[j..][..1] == [f[j]];
    }
    FirstIgnoresRest(f, [b], []);
    FirstExact(f, [b]);
    FirstExact(f + [b], [b]);
  }

  /** With a separator of one byte that no field contains, splitting undoes joining. */
  lemma OneByteSplitJoin(fields: seq<Text>, b: Byte)
    requires fields != [] && forall f :: f in fields ==> b !in f
    ensures SplitOn(Join(fields, [b]), [b]) == fields
  {
    forall i | 0 <= i < |fields|
      ensures EndsAtSeparator(fields[i], [b]) && Lacks(fields[i], [b])
    {
      OneByteSeparator(fields[i], b);
    }
    SplitJoinIff(fields, [b]);
  }
}
