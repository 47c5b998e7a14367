/** Splitting a line of an imported file into columns, in the buffer that holds it. */
module Import {
  import opened Bytes
  import opened Separators

  predicate LineEnd(b: Byte) {
    b == NUL || b == NEWLINE || b == RETURN
  }

  /** The part of a buffer before its first NUL, line feed or carriage return. */
  function Content(buffer: Text): (s: Text)
    ensures |s| <= |buffer| && s == buffer[..|s|]
    ensures forall k :: 0 <= k < |s| ==> !LineEnd(s[k])
    ensures |s| < |buffer| ==> LineEnd(buffer[|s|])
  {
    if buffer == [] || LineEnd(buffer[0]) then []
    else
      var rest := Content(buffer[1..]);
      assert [buffer[0]] + rest == buffer[..|rest| + 1];
      [buffer[0]] + rest
  }

  /** A line ends at the first NUL, line feed or carriage return, and nowhere else. */
  lemma ContentExact(buffer: Text, k: nat)
    requires k <= |buffer|
    ensures |Content(buffer)| == k
            <==> (forall i :: 0 <= i < k ==> buffer[i] != 0 && buffer[i] != 10 && buffer[i] != 13)
                 && (k < |buffer| ==> buffer[k] == 0 || buffer[k] == 10 || buffer[k] == 13)
    ensures |Content(buffer)| == k ==> Content(buffer) == buffer[..k]
  {
    var s := Content(buffer);
    assert forall i :: 0 <= i < |s| ==> s[i] == buffer[i];
  }

  /** The C string that starts at an offset is the field. */
  predicate ColumnAt(buffer: Text, p: nat, f: Text) {
    p + |f| < |buffer| && buffer[p + |f|] == NUL && (forall k :: 0 <= k < |f| ==> buffer[p + k] == f[k] != NUL)
  }

  lemma ColumnIsCString(buffer: Text, p: nat, f: Text)
    requires ColumnAt(buffer, p, f)
    ensures Terminated(buffer[p..]) && CString(buffer[p..]) == f
  {
    var t := buffer[p..];
    assert t[..|f|] == f;
    CStringUnique(t, |f|);
  }

  /** Whether the separator starts at the byte at hand, k bytes into a text that has none before. */
  lemma NoSeparatorBefore(t: Text, sep: Text, k: nat)
    requires sep != [] && k < |t| && k <= First(t, sep)
    ensures First(t, sep) == k <==> StartsWith(t[k..], sep)
  {
    FirstExact(t, sep);
  }

  /** Splitting off the first piece. */
  lemma SplitHere(t: Text, sep: Text, piece: Text, more: Text, done: seq<Text>, fields: seq<Text>)
    requires sep != [] && First(t, sep) == |piece| < |t| && fields == done + SplitOn(t, sep)
    requires piece == t[..|piece|] && more == t[|piece| + |sep|..]
    ensures fields == done + [piece] + SplitOn(more, sep) && |fields| > |done| + 1
  {
    SplitOnce(t, sep, piece, more);
    var rest := SplitOn(more, sep);
    assert done + ([piece] + rest) == done + [piece] + rest;
  }

  lemma SplitOnce(t: Text, sep: Text, piece: Text, more: Text)
    requires sep != [] && First(t, sep) == |piece| < |t|
    requires piece == t[..|piece|] && more == t[|piece| + |sep|..]
    ensures SplitOn(t, sep) == [piece] + SplitOn(more, sep)
  {
    hide First, StartsWith;
    var k := First(t, sep);
    assert t[..k] == piece && t[k + |sep|..] == more;
  }

  /** Whether the C string of the buffer, from an index on, starts with the separator. */
  method SeparatorAt(zLine: array<Byte>, z: nat, sep: Text, ghost s: Text) returns (r: bool)
    requires z <= |s| < zLine.Length && sep != [] && LineEnd(zLine[|s|])
    requires forall k :: 0 <= k < |sep| ==> !LineEnd(sep[k])
    requires forall k :: z <= k < |s| ==> zLine[k] == s[k]
    ensures r == StartsWith(s[z..], sep)
  {
    ghost var t := s[z..];
    for i := 0 to |sep|
      invariant i <= |t| && t[..i] == sep[..i]
    {
      if zLine[z + i] != sep[i] {
        assert |sep| <= |t| ==> t[..|sep|][i] == t[i];
        return false;
      }
      assert t[..i + 1] == sep[..i + 1];
    }
    return true;
  }

  /** The fields found so far are columns of the buffer, all of them before the given bound. */
  predicate Columns(buffer: Text, azCol: seq<nat>, done: seq<Text>, bound: nat) {
    && |done| <= |azCol|
    && forall k :: 0 <= k < |done| ==> azCol[k] + |done[k]| < bound && ColumnAt(buffer, azCol[k], done[k])
  }

  /** Ending the open field with a NUL makes it a column and leaves the earlier columns alone. */
  lemma ColumnsGrow(buffer: Text, changed: Text, azCol: seq<nat>, more: seq<nat>, done: seq<Text>,
                    start: nat, f: Text, bound: nat)
    requires Columns(buffer, azCol, done, start) && |azCol| == |done| + 1 && azCol[|done|] == start
    requires start + |f| < |buffer| && changed == buffer[start + |f| := NUL]
    requires forall k :: 0 <= k < |f| ==> buffer[start + k] == f[k] != NUL
    requires azCol <= more && start + |f| < bound
    ensures Columns(changed, more, done + [f], bound)
  {
    forall j | 0 <= j < |done|
      ensures more[j] + |done[j]| < bound && ColumnAt(changed, more[j], done[j])
    {
      assert more[j] == azCol[j] && ColumnAt(buffer, azCol[j], done[j]);
    }
    assert more[|done|] == start;
  }

  /** Where the scan of a line stands: the fields found, the rest of the line, and how much of it has been seen. */
  predicate Scanning(s: Text, sep: Text, fields: seq<Text>, done: seq<Text>, start: nat, z: nat)
    requires sep != []
  {
    start <= z <= |s| && z - start <= First(s[start..], sep) && fields == done + SplitOn(s[start..], sep)
  }

  lemma ScanOver(s: Text, sep: Text, fields: seq<Text>, done: seq<Text>, start: nat, z: nat)
    requires sep != [] && Scanning(s, sep, fields, done, start, z) && z < |s| && !StartsWith(s[z..], sep)
    ensures Scanning(s, sep, fields, done, start, z + 1)
  {
    assert s[start..][z - start..] == s[z..];
    NoSeparatorBefore(s[start..], sep, z - start);
  }

  lemma SliceOfRest(s: Text, start: nat, z: nat, m: nat)
    requires start <= z && z + m <= |s|
    ensures s[start..][..z - start] == s[start..z]
    ensures s[start..][z - start..] == s[z..]
    ensures s[start..][z - start + m..] == s[z + m..]
  {
  }

  lemma ScanSeparator(s: Text, sep: Text, fields: seq<Text>, done: seq<Text>, start: nat, z: nat)
    requires sep != [] && Scanning(s, sep, fields, done, start, z) && z < |s| && StartsWith(s[z..], sep)
    ensures Scanning(s, sep, fields, done + [s[start..z]], z + |sep|, z + |sep|)
    ensures |fields| > |done| + 1
  {
    SliceOfRest(s, start, z, |sep|);
    NoSeparatorBefore(s[start..], sep, z - start);
    SplitHere(s[start..], sep, s[start..z], s[z + |sep|..], done, fields);
  }

  lemma ScanEnd(s: Text, sep: Text, fields: seq<Text>, done: seq<Text>, start: nat)
    requires sep != [] && Scanning(s, sep, fields, done, start, |s|)
    ensures fields == done + [s[start..]]
  {
  }

  /** The whole state of the scan as long as columns are still being filled in. */
  predicate Filling(buffer: Text, now: Text, s: Text, sep: Text, fields: seq<Text>, azCol: seq<nat>,
                    done: seq<Text>, start: nat, z: nat)
    requires sep != []
  {
    && |s| < |buffer| == |now|
    && (forall k :: 0 <= k < |s| ==> buffer[k] == s[k] != NUL)
    && Scanning(s, sep, fields, done, start, z)
    && |azCol| == |done| + 1 && azCol[|done|] == start
    && (forall k :: start <= k < |now| ==> now[k] == buffer[k])
    && Columns(now, azCol, done, start)
  }

  /** A byte that starts no separator is passed. */
  lemma FillOver(buffer: Text, now: Text, s: Text, sep: Text, fields: seq<Text>, azCol: seq<nat>,
                 done: seq<Text>, start: nat, z: nat, next: nat)
    requires sep != [] && Filling(buffer, now, s, sep, fields, azCol, done, start, z)
    requires z < |s| && !StartsWith(s[z..], sep) && next == z + 1
    ensures Filling(buffer, now, s, sep, fields, azCol, done, start, next)
  {
    ScanOver(s, sep, fields, done, start, z);
  }

  /** A separator is passed and the column before it completed. */
  lemma FillNext(buffer: Text, now: Text, s: Text, sep: Text, fields: seq<Text>, azCol: seq<nat>,
                 done: seq<Text>, start: nat, z: nat, next: nat)
    requires sep != [] && Filling(buffer, now, s, sep, fields, azCol, done, start, z)
    requires z < |s| && StartsWith(s[z..], sep) && next == z + |sep|
    ensures Filling(buffer, now[z := NUL], s, sep, fields, azCol + [next], done + [s[start..z]], next, next)
    ensures |fields| > |done| + 1
  {
    hide ColumnAt;
    ScanSeparator(s, sep, fields, done, start, z);
    ColumnsGrow(now, now[z := NUL], azCol, azCol + [z + |sep|], done, start, s[start..z], z + |sep|);
  }

  /** At the end of the line the last column is completed. */
  lemma FillLast(buffer: Text, now: Text, s: Text, sep: Text, fields: seq<Text>, azCol: seq<nat>,
                 done: seq<Text>, start: nat)
    requires sep != [] && Filling(buffer, now, s, sep, fields, azCol, done, start, |s|)
    ensures fields == done + [s[start..]]
    ensures Columns(now[|s| := NUL], azCol, fields, |now|)
  {
    ScanEnd(s, sep, fields, done, start);
    ColumnsGrow(now, now[|s| := NUL], azCol, azCol, done, start, s[start..], |now|);
  }

  predicate OnOneLine(f: Text) {
    forall k :: 0 <= k < |f| ==> !LineEnd(f[k])
  }

  lemma {:induction false} JoinOnOneLine(fields: seq<Text>, sep: Text)
    requires fields != [] && OnOneLine(sep) && forall f :: f in fields ==> OnOneLine(f)
    ensures OnOneLine(Join(fields, sep))
    decreases |fields|
  {
    if |fields| > 1 {
      JoinOnOneLine(fields[1..], sep);
      assert fields[0] in fields;
    } else {
      assert fields[0] in fields;
    }
  }

  lemma {:induction false} ContentOfLine(s: Text, rest: Text)
    requires OnOneLine(s) && rest != [] && LineEnd(rest[0])
    ensures Content(s + rest) == s
    decreases |s|
  {
    if s != [] {
      assert (s + rest)[1..] == s[1..] + rest;
      assert forall k :: 0 <= k < |s[1..]| ==> s[1..][k] == s[k + 1];
      ContentOfLine(s[1..], rest);
      assert [s[0]] + s[1..] == s;
    }
  }

  /**
   A row of joined fields read back as a line, which ends at a NUL, a line feed or a carriage return: the importer
   finds exactly the fields if and only if they are separable, whatever follows the end of the line.
   */
  lemma ListRowImportIff(fields: seq<Text>, sep: Text, rest: Text)
    requires fields != [] && sep != [] && OnOneLine(sep) && forall f :: f in fields ==> OnOneLine(f)
    requires rest != [] && LineEnd(rest[0])
    ensures SplitOn(Content(Join(fields, sep) + rest), sep) == fields <==> Separable(fields, sep)
  {
    JoinOnOneLine(fields, sep);
    ContentOfLine(Join(fields, sep), rest);
    SplitJoinIff(fields, sep);
  }

  // ----- the number of columns that is reported

  /** At how many places the separator starts, overlapping ones included. */
  function Occurrences(s: Text, sep: Text): nat
    requires sep != []
    decreases |s|
  {
    if s == [] then 0 else (if StartsWith(s, sep) then 1 else 0) + Occurrences(s[1..], sep)
  }

  /**
   How many columns the importer counts. Once it has the expected number it no longer skips separators, and counts every
   place at which one starts.
   */
  function ColumnsFound(s: Text, sep: Text, expected: nat): (found: nat)
    requires sep != [] && 1 <= expected
    decreases |s|
  {
    var k := First(s, sep);
    if k == |s| then 1
    else if expected == 1 then 2 + Occurrences(s[k + 1..], sep)
    else 1 + ColumnsFound(s[k + |sep|..], sep, expected - 1)
  }

  /** The count is right up to the expected number of columns. */
  lemma {:induction false} FoundIsExact(s: Text, sep: Text, expected: nat)
    requires sep != [] && 1 <= expected
    ensures |SplitOn(s, sep)| <= expected ==> ColumnsFound(s, sep, expected) == |SplitOn(s, sep)|
    ensures expected < |SplitOn(s, sep)| ==> expected < ColumnsFound(s, sep, expected)
    decreases |s|
  {
    hide First, StartsWith, Occurrences;
    var k := First(s, sep);
    if k < |s| {
      if expected > 1 {
        FoundIsExact(s[k + |sep|..], sep, expected - 1);
      }
    }
  }

  /** The places, from a given one on, at which the separator starts. */
  function Places(s: Text, sep: Text, i: nat): set<int> {
    set j | i <= j < |s| && StartsWith(s[j..], sep)
  }

  lemma {:induction false} OccurrencesExact(s: Text, sep: Text, i: nat)
    requires sep != [] && i <= |s|
    ensures Occurrences(s[i..], sep) == |Places(s, sep, i)|
    decreases |s| - i
  {
    hide StartsWith;
    if i == |s| {
      assert Places(s, sep, i) == {};
    } else {
      OccurrencesExact(s, sep, i + 1);
      assert s[i..][1..] == s[i + 1..];
      assert Places(s, sep, i) == Places(s, sep, i + 1) + if StartsWith(s[i..], sep) then {i} else {};
    }
  }

  /**
   With more columns than expected, the count is one more than the expected number and the number of places behind the
   start of the last separator that was acted upon at which a separator starts.
   */
  lemma {:induction false} FoundBeyond(s: Text, sep: Text, expected: nat)
    requires sep != [] && 1 <= expected < |SplitOn(s, sep)|
    ensures var p := |Join(SplitOn(s, sep)[..expected], sep)|;
            p < |s| && ColumnsFound(s, sep, expected) == expected + 1 + |Places(s[p + 1..], sep, 0)|
    decreases expected
  {
    hide First, Places, StartsWith, Occurrences;
    var k := First(s, sep);
    var fields := SplitOn(s, sep);
    if expected == 1 {
      OccurrencesExact(s[k + 1..], sep, 0);
      assert s[k + 1..][0..] == s[k + 1..];
      assert fields[..1] == [s[..k]];
    } else {
      var more := s[k + |sep|..];
      FoundBeyond(more, sep, expected - 1);
      assert fields[..expected] == [s[..k]] + SplitOn(more, sep)[..expected - 1];
      assert fields[..expected][1..] == SplitOn(more, sep)[..expected - 1];
      var p := |Join(SplitOn(more, sep)[..expected - 1], sep)|;
      assert more[p + 1..] == s[k + |sep| + p + 1..];
    }
  }

  lemma {:induction false} OneByteOccurrences(s: Text, b: Byte)
    ensures Occurrences(s, [b]) + 1 == |SplitOn(s, [b])|
    decreases |s|
  {
    if s != [] {
      OneByteOccurrences(s[1..], b);
      if StartsWith(s, [b]) {
        assert First(s, [b]) == 0 && s[0 + |[b]|..] == s[1..];
      } else {
        var k := First(s[1..], [b]);
        assert First(s, [b]) == k + 1;
        if k < |s[1..]| {
          assert s[1..][k + |[b]|..] == s[k + 1 + |[b]|..];
        }
      }
    }
  }

  /** With a separator of one byte the count is always right. */
  lemma {:induction false} OneByteFound(s: Text, b: Byte, expected: nat)
    requires 1 <= expected
    ensures ColumnsFound(s, [b], expected) == |SplitOn(s, [b])|
    decreases |s|
  {
    var k := First(s, [b]);
    if k < |s| {
      if expected == 1 {
        OneByteOccurrences(s[k + 1..], b);
      } else {
        OneByteFound(s[k + |[b]|..], b, expected - 1);
      }
    }
  }

  /** How far the count has come. */
  predicate Tally(s: Text, sep: Text, nCol: nat, i: nat, start: nat, z: nat)
    requires sep != [] && 1 <= nCol
  {
    && start <= z <= |s|
    && ColumnsFound(s, sep, nCol)
       == if i < nCol then i + ColumnsFound(s[start..], sep, nCol - i) else i + 1 + Occurrences(s[z..], sep)
  }

  lemma TallyOver(s: Text, sep: Text, nCol: nat, i: nat, start: nat, z: nat, next: nat)
    requires sep != [] && 1 <= nCol && Tally(s, sep, nCol, i, start, z)
    requires z < |s| && !StartsWith(s[z..], sep) && next == z + 1
    ensures Tally(s, sep, nCol, i, start, next)
  {
    hide ColumnsFound, StartsWith;
    assert s[z..][1..] == s[next..];
  }

  lemma TallyNext(s: Text, sep: Text, nCol: nat, i: nat, fields: seq<Text>, done: seq<Text>, start: nat, z: nat)
    requires sep != [] && i < nCol && Tally(s, sep, nCol, i, start, z) && Scanning(s, sep, fields, done, start, z)
    requires z < |s| && StartsWith(s[z..], sep)
    ensures i + 1 < nCol ==> z + |sep| <= |s| && Tally(s, sep, nCol, i + 1, z + |sep|, z + |sep|)
    ensures i + 1 == nCol ==> Tally(s, sep, nCol, i + 1, start, z + 1)
  {
    hide Occurrences, SplitOn, ColumnsFound, First, StartsWith;
    var t, k := s[start..], z - start;
    SliceOfRest(s, start, z, 0);
    NoSeparatorBefore(t, sep, k);
    FoundHere(t, sep, nCol - i, k);
    SliceOfRest(s, start, z, 1);
    if i + 1 < nCol {
      SliceOfRest(s, start, z, |sep|);
    }
  }

  lemma FoundHere(t: Text, sep: Text, expected: nat, k: nat)
    requires sep != [] && 1 <= expected && First(t, sep) == k < |t|
    ensures k + |sep| <= |t|
    ensures ColumnsFound(t, sep, expected)
            == if expected == 1 then 2 + Occurrences(t[k + 1..], sep)
               else 1 + ColumnsFound(t[k + |sep|..], sep, expected - 1)
  {
  }

  lemma TallyBeyond(s: Text, sep: Text, nCol: nat, i: nat, start: nat, z: nat, next: nat)
    requires sep != [] && 1 <= nCol <= i && Tally(s, sep, nCol, i, start, z)
    requires z < |s| && StartsWith(s[z..], sep) && next == z + 1
    ensures Tally(s, sep, nCol, i + 1, start, next)
  {
    hide ColumnsFound, StartsWith;
    assert s[z..][1..] == s[next..];
  }

  lemma TallyEnd(s: Text, sep: Text, nCol: nat, i: nat, fields: seq<Text>, done: seq<Text>, start: nat)
    requires sep != [] && 1 <= nCol && Tally(s, sep, nCol, i, start, |s|)
    requires i < nCol ==> Scanning(s, sep, fields, done, start, |s|)
    ensures ColumnsFound(s, sep, nCol) == i + 1
  {
    hide SplitOn;
  }

  /** Ends the column at a separator; the next one starts behind it, unless there are too many already. */
  method EndColumn(zLine: array<Byte>, z: nat, sep: Text, nCol: nat, i: nat, azCol: seq<nat>,
                   ghost buffer: Text, ghost s: Text, ghost fields: seq<Text>, ghost done: seq<Text>, ghost start: nat)
    returns (more: seq<nat>, next: nat, ghost ended: seq<Text>, ghost from: nat)
    requires sep != [] && z < |s| < zLine.Length && StartsWith(s[z..], sep)
    requires i < nCol ==> i == |done| && Filling(buffer, zLine[..], s, sep, fields, azCol, done, start, z)
    requires i >= nCol ==> |fields| > nCol
    modifies zLine
    ensures zLine[..] == old(zLine[..])[z := NUL] && z < next <= |s|
    ensures if i + 1 < nCol then next == from == z + |sep| else next == z + 1 && from == start
    ensures i + 1 < nCol ==>
      i + 1 == |ended| && Filling(buffer, zLine[..], s, sep, fields, more, ended, from, next)
    ensures i + 1 >= nCol ==> |fields| > nCol
  {
    ghost var now := zLine[..];
    zLine[z] := NUL;
    assert zLine[..] == now[z := NUL];
    more, next, ended, from := azCol, z + 1, done, start;
    if i < nCol {
      FillNext(buffer, now, s, sep, fields, azCol, done, start, z, z + |sep|);
    }
    if i + 1 < nCol {
      more, next := azCol + [z + |sep|], z + |sep|;
      ended, from := done + [s[start..z]], next;
    }
  }

  lemma TallyStart(s: Text, sep: Text, nCol: nat)
    requires sep != [] && 1 <= nCol
    ensures Tally(s, sep, nCol, 0, 0, 0)
  {
    assert s[0..] == s;
  }

  lemma FillStart(buffer: Text, s: Text, sep: Text)
    requires sep != [] && |s| < |buffer| && forall k :: 0 <= k < |s| ==> buffer[k] == s[k] != NUL
    ensures Filling(buffer, buffer, s, sep, SplitOn(s, sep), [0], [], 0, 0)
  {
    assert s[0..] == s;
  }

  /**
   Splits the line at the separators. The columns are given as offsets into the buffer, where each of them is left
   as a C string. The line is accepted if it has the expected number of columns; otherwise the number found is reported.
   */
  method SplitLine(zLine: array<Byte>, sep: Text, nCol: nat) returns (accepted: bool, azCol: seq<nat>, found: nat)
    requires Terminated(zLine[..]) && sep != [] && 1 <= nCol
    requires forall k :: 0 <= k < |sep| ==> !LineEnd(sep[k])
    modifies zLine
    ensures found == ColumnsFound(Content(old(zLine[..])), sep, nCol) && (accepted <==> found == nCol)
    ensures accepted <==> |SplitOn(Content(old(zLine[..])), sep)| == nCol
    ensures accepted ==> |azCol| == nCol
    ensures accepted ==> Columns(zLine[..], azCol, SplitOn(Content(old(zLine[..])), sep), zLine.Length)
  {
    hide SplitOn, ColumnsFound, Occurrences, Tally, Scanning, Columns, StartsWith, Content;
    ghost var buffer := zLine[..];
    ghost var s := Content(buffer);
    ghost var fields := SplitOn(s, sep);
    ghost var done: seq<Text>, start: nat := [], 0;
    azCol := [0];
    var i, z := 0, 0;
    assert s[0..] == s;
    TallyStart(s, sep, nCol);
    FillStart(buffer, s, sep);
    while !LineEnd(zLine[z])
      invariant z <= |s| < zLine.Length
      invariant LineEnd(zLine[|s|]) && forall k :: z <= k < |s| ==> zLine[k] == s[k]
      invariant i < nCol ==> i == |done| && Filling(buffer, zLine[..], s, sep, fields, azCol, done, start, z)
      invariant i >= nCol ==> |fields| > nCol
      invariant Tally(s, sep, nCol, i, start, z)
      decreases |s| - z
    {
      assert z < |s|;
      var here := SeparatorAt(zLine, z, sep, s);
      if here {
        if i < nCol {
          TallyNext(s, sep, nCol, i, fields, done, start, z);
        } else {
          TallyBeyond(s, sep, nCol, i, start, z, z + 1);
        }
        azCol, z, done, start := EndColumn(zLine, z, sep, nCol, i, azCol, buffer, s, fields, done, start);
        i := i + 1;
      } else {
        TallyOver(s, sep, nCol, i, start, z, z + 1);
        if i < nCol {
          FillOver(buffer, zLine[..], s, sep, fields, azCol, done, start, z, z + 1);
        }
        z := z + 1;
      }
    }
    ghost var now := zLine[..];
    zLine[z] := NUL;
    assert zLine[..] == now[z := NUL];
    TallyEnd(s, sep, nCol, i, fields, done, start);
    found := i + 1;
    accepted := found == nCol;
    if i < nCol {
      FillLast(buffer, now, s, sep, fields, azCol, done, start);
    }
  }
}
