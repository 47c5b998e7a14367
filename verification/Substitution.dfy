/** Replacing several search strings at once, with an output buffer that grows as needed. */
module Substitution {
  import opened Bytes
  import opened Separators

  datatype Rule = Rule(search: Text, replacement: Text)

  /** No search string contains a NUL, at which the comparison of the source would stop. */
  predicate NulFreeRules(rules: seq<Rule>) {
    forall k :: 0 <= k < |rules| ==> NulFree(rules[k].search)
  }

  /** Which rule of the list, from number j on, is the first whose search string starts the text. */
  function FirstMatch(s: Text, rules: seq<Rule>, j: nat := 0): (k: nat)
    requires j <= |rules|
    ensures j <= k <= |rules|
    ensures k < |rules| ==> |rules[k].search| <= |s|
    decreases |rules| - j
  {
    if j == |rules| || StartsWith(s, rules[j].search) then j else FirstMatch(s, rules, j + 1)
  }

  lemma {:induction false} FirstMatchExact(s: Text, rules: seq<Rule>, j: nat)
    requires j <= |rules|
    ensures var k := FirstMatch(s, rules, j);
            && (k < |rules| ==> StartsWith(s, rules[k].search))
            && forall h :: j <= h < k ==> !StartsWith(s, rules[h].search)
    decreases |rules| - j
  {
    if j < |rules| && !StartsWith(s, rules[j].search) {
      FirstMatchExact(s, rules, j + 1);
    }
  }

  lemma {:induction false} FirstMatchUnique(s: Text, rules: seq<Rule>, j: nat, k: nat)
    requires j <= k <= |rules| && (k < |rules| ==> StartsWith(s, rules[k].search))
    requires forall h :: j <= h < k ==> !StartsWith(s, rules[h].search)
    ensures FirstMatch(s, rules, j) == k
    decreases k - j
  {
    if j < k {
      FirstMatchUnique(s, rules, j + 1, k);
    }
  }

  /** What is copied to the output at the start of a text, and how much of the text it stands for. */
  function NextCopy(s: Text, rules: seq<Rule>): (r: (Text, nat))
    requires s != []
    ensures r.1 <= |s|
  {
    var k := FirstMatch(s, rules);
    if k < |rules| then (rules[k].replacement, |rules[k].search|) else (s[..1], 1)
  }

  /** Substitution ends: the first rule that matches at a position it reaches never has an empty search string. */
  predicate Ends(s: Text, rules: seq<Rule>)
    decreases |s|
  {
    s == [] || (NextCopy(s, rules).1 > 0 && Ends(s[NextCopy(s, rules).1..], rules))
  }

  /** Substitution from left to right: the first rule that matches here is applied, or else one byte is copied. */
  function Substitute(s: Text, rules: seq<Rule>): Text
    requires Ends(s, rules)
    decreases |s|
  {
    if s == [] then [] else NextCopy(s, rules).0 + Substitute(s[NextCopy(s, rules).1..], rules)
  }

  // ----- when substitution ends

  /** Where the loop stands after a number of turns. */
  function Reached(s: Text, rules: seq<Rule>, turns: nat): (i: nat)
    ensures i <= |s|
  {
    if turns == 0 then 0
    else
      var i := Reached(s, rules, turns - 1);
      if i == |s| then i else i + NextCopy(s[i..], rules).1
  }

  lemma ReachedStep(s: Text, rules: seq<Rule>, k: nat, next: nat)
    requires next == k + 1
    ensures Ends(s[Reached(s, rules, k)..], rules)
            <==> Moves(s, rules, k) && Ends(s[Reached(s, rules, next)..], rules)
  {
    hide NextCopy;
    var i := Reached(s, rules, k);
    if i < |s| {
      var n := NextCopy(s[i..], rules).1;
      assert s[i..][n..] == s[i + n..];
    }
  }

  lemma {:induction false} ReachedKeepsEnds(s: Text, rules: seq<Rule>, turns: nat)
    ensures Ends(s, rules) <==> Ends(s[Reached(s, rules, turns)..], rules) && forall k :: 0 <= k < turns ==> Moves(s, rules, k)
    decreases turns
  {
    hide Moves, Ends, NextCopy;
    if turns == 0 {
      assert s[0..] == s;
    } else {
      ReachedKeepsEnds(s, rules, turns - 1);
      ReachedStep(s, rules, turns - 1, turns);
    }
  }

  /** The turn makes progress, or there is nothing left to do. */
  predicate Moves(s: Text, rules: seq<Rule>, k: nat) {
    var i := Reached(s, rules, k);
    i < |s| ==> NextCopy(s[i..], rules).1 > 0
  }

  lemma {:induction false} StuckStays(s: Text, rules: seq<Rule>, k: nat, turns: nat)
    requires !Moves(s, rules, k) && k <= turns
    ensures Reached(s, rules, turns) == Reached(s, rules, k) < |s|
    decreases turns
  {
    if k < turns {
      StuckStays(s, rules, k, turns - 1);
    }
  }

  lemma {:induction false} MovingReaches(s: Text, rules: seq<Rule>, turns: nat)
    requires forall k :: 0 <= k < turns ==> Moves(s, rules, k)
    ensures Reached(s, rules, turns) == |s| || turns <= Reached(s, rules, turns)
    decreases turns
  {
    if turns > 0 {
      MovingReaches(s, rules, turns - 1);
      assert Moves(s, rules, turns - 1);
    }
  }

  /** The loop comes to the end of the text if and only if the condition holds. */
  lemma EndsIff(s: Text, rules: seq<Rule>)
    ensures Ends(s, rules) <==> exists turns: nat :: Reached(s, rules, turns) == |s|
  {
    if Ends(s, rules) {
      ReachedKeepsEnds(s, rules, |s|);
      MovingReaches(s, rules, |s|);
    } else if turns: nat :| Reached(s, rules, turns) == |s| {
      ReachedKeepsEnds(s, rules, turns);
      var k :| 0 <= k < turns && !Moves(s, rules, k);
      StuckStays(s, rules, k, turns);
    }
  }

  /** With search strings that are not empty substitution always ends. */
  lemma {:induction false} NonEmptyEnds(s: Text, rules: seq<Rule>)
    requires forall k :: 0 <= k < |rules| ==> rules[k].search != []
    ensures Ends(s, rules)
    decreases |s|
  {
    if s != [] {
      NonEmptyEnds(s[NextCopy(s, rules).1..], rules);
    }
  }

  // ----- what substitution means

  /** No search string occurs at any of the first i positions. */
  predicate NoMatchBefore(s: Text, i: nat, rules: seq<Rule>)
    requires i <= |s|
  {
    forall k, h :: 0 <= k < i && 0 <= h < |rules| ==> !StartsWith(s[k..], rules[h].search)
  }

  lemma NoMatchTail(s: Text, i: nat, rules: seq<Rule>)
    requires 0 < i <= |s| && NoMatchBefore(s, i, rules)
    ensures FirstMatch(s, rules) == |rules| && NoMatchBefore(s[1..], i - 1, rules)
  {
    assert s[0..] == s;
    FirstMatchUnique(s, rules, 0, |rules|);
    forall k, h | 0 <= k < i - 1 && 0 <= h < |rules|
      ensures !StartsWith(s[1..][k..], rules[h].search)
    {
      assert s[1..][k..] == s[k + 1..];
    }
  }

  lemma ConsSlices(s: Text, i: nat, rest: Text)
    requires 0 < i <= |s|
    ensures s[1..][i - 1..] == s[i..]
    ensures s[..1] + (s[1..][..i - 1] + rest) == s[..i] + rest
  {
  }

  /** Text before the first match is copied. */
  lemma {:induction false} CopiesUpToMatch(s: Text, rules: seq<Rule>, i: nat)
    requires Ends(s, rules) && i <= |s| && NoMatchBefore(s, i, rules)
    ensures Ends(s[i..], rules)
    ensures Substitute(s, rules) == s[..i] + Substitute(s[i..], rules)
    decreases i
  {
    if i == 0 {
      assert s[0..] == s;
    } else {
      NoMatchTail(s, i, rules);
      CopiesUpToMatch(s[1..], rules, i - 1);
      ConsSlices(s, i, Substitute(s[i..], rules));
    }
  }

  /**
   Leftmost, first listed: if no search string occurs before i and rule j is the first in the list whose search
   string stands at i, the text up to i is copied, the replacement follows, and substitution goes on behind the match.
   */
  lemma LeftmostFirstListed(s: Text, rules: seq<Rule>, i: nat, j: nat)
    requires Ends(s, rules) && i < |s| && NoMatchBefore(s, i, rules)
    requires j < |rules| && StartsWith(s[i..], rules[j].search)
    requires forall h :: 0 <= h < j ==> !StartsWith(s[i..], rules[h].search)
    ensures i + |rules[j].search| <= |s| && Ends(s[i + |rules[j].search|..], rules)
    ensures Substitute(s, rules)
            == s[..i] + rules[j].replacement + Substitute(s[i + |rules[j].search|..], rules)
  {
    CopiesUpToMatch(s, rules, i);
    FirstMatchUnique(s[i..], rules, 0, j);
    assert s[i..][|rules[j].search|..] == s[i + |rules[j].search|..];
  }

  /** Where no search string occurs, nothing changes. */
  lemma NoMatchNoChange(s: Text, rules: seq<Rule>)
    requires NoMatchBefore(s, |s|, rules)
    ensures Ends(s, rules) && Substitute(s, rules) == s
  {
    if s != [] {
      assert s[0..] == s;
      assert forall h :: 0 <= h < |rules| ==> !StartsWith(s[0..], rules[h].search);
      NonEmptyEnds(s, rules);
    }
    CopiesUpToMatch(s, rules, |s|);
    assert s[|s|..] == [] && s[..|s|] == s;
  }

  // ----- the loop

  /** Whether strncmp finds no difference in the first n bytes. It also stops at a NUL, but there is none in z. */
  method SameBytes(z: Text, copy: Text, n: nat) returns (same: bool)
    requires n <= |z| && n <= |copy| && NulFree(z)
    ensures same <==> z[..n] == copy[..n]
  {
    for i := 0 to n
      invariant z[..i] == copy[..i]
    {
      if z[i] != copy[i] {
        assert z[..n][i] != copy[..n][i];
        return false;
      }
      assert z[..i + 1] == copy[..i + 1];
    }
    return true;
  }

  /** The arguments behind the input, taken in pairs; one that has no partner is ignored. */
  function Rules(argv: seq<Text>): (r: seq<Rule>)
    ensures |r| == if |argv| == 0 then 0 else (|argv| - 1) / 2
    ensures forall k :: 0 <= k < |r| ==> r[k] == Rule(argv[2 * k + 1], argv[2 * k + 2])
  {
    if |argv| == 0 then []
    else seq((|argv| - 1) / 2, k requires 0 <= k < (|argv| - 1) / 2 => Rule(argv[2 * k + 1], argv[2 * k + 2]))
  }

  /** Looks for the first pair of arguments whose first part starts the rest of the input. */
  method FindRule(argv: seq<Text>, zCopy: Text) returns (j: nat)
    requires argv != [] && zCopy != [] && NulFreeRules(Rules(argv))
    ensures NextCopy(zCopy, Rules(argv))
            == if j + 1 < |argv| then (argv[j + 1], |argv[j]|) else (zCopy[..1], 1)
  {
    ghost var rules := Rules(argv);
    ghost var k := 0;
    j := 1;
    while j + 1 < |argv|
      invariant k <= |rules| && j == 2 * k + 1
      invariant forall h :: 0 <= h < k ==> !StartsWith(zCopy, rules[h].search)
      decreases |argv| - j
    {
      assert rules[k] == Rule(argv[j], argv[j + 1]);
      var n := |argv[j]|;
      if n <= |zCopy| {
        var same := SameBytes(argv[j], zCopy, n);
        assert argv[j][..n] == argv[j];
        if same {
          break;
        }
      }
      j, k := j + 2, k + 1;
    }
    FirstMatchUnique(zCopy, rules, 0, k);
  }

  /** A larger buffer that starts with the first n bytes of the given one. */
  method Enlarge(buffer: array<Byte>, n: nat, size: nat) returns (r: array<Byte>)
    requires n <= buffer.Length <= size
    ensures fresh(r) && r.Length == size && r[..n] == buffer[..n]
  {
    r := new Byte[size](_ => NUL);
    for i := 0 to n
      invariant r[..i] == buffer[..i]
    {
      r[i] := buffer[i];
      assert r[..i + 1] == buffer[..i + 1];
    }
  }

  method CopyTo(buffer: array<Byte>, at: nat, copy: Text)
    requires at + |copy| <= buffer.Length
    modifies buffer
    ensures buffer[..at + |copy|] == old(buffer[..at]) + copy
  {
    for i := 0 to |copy|
      invariant buffer[..at + i] == old(buffer[..at]) + copy[..i]
    {
      buffer[at + i] := copy[i];
      assert buffer[..at + i + 1] == old(buffer[..at]) + copy[..i] + [copy[i]];
      assert copy[..i + 1] == copy[..i] + [copy[i]];
    }
    assert copy[..|copy|] == copy;
  }

  /** Adds a copy to the output; the buffer is enlarged first if the copy would not fit. */
  method Append(zOut: array<Byte>, nOut: nat, copy: Text) returns (r: array<Byte>)
    requires nOut <= zOut.Length
    modifies zOut
    ensures r == zOut || fresh(r)
    ensures nOut + |copy| <= r.Length && r[..nOut + |copy|] == old(zOut[..nOut]) + copy
  {
    r := zOut;
    if nOut + |copy| > zOut.Length {
      r := Enlarge(zOut, nOut, 16 + (nOut + |copy|) * 2);
    }
    CopyTo(r, nOut, copy);
  }

  /** What one turn of the loop adds to the output. */
  lemma SubstituteNext(s: Text, rules: seq<Rule>, i: nat, n: nat, next: nat, copy: Text, written: Text, goal: Text)
    requires i < |s| && Ends(s[i..], rules) && NextCopy(s[i..], rules) == (copy, n) && next == i + n
    requires written + Substitute(s[i..], rules) == goal
    ensures i < next <= |s| && Ends(s[next..], rules) && written + copy + Substitute(s[next..], rules) == goal
  {
    assert s[i..][n..] == s[next..];
    var rest := Substitute(s[next..], rules);
    assert written + (copy + rest) == written + copy + rest;
  }

  lemma SubstituteNothing(rules: seq<Rule>)
    ensures Ends([], rules) && Substitute([], rules) == []
  {
  }

  /** Applies the pairs of search string and replacement to the input. */
  method MultiReplace(argv: seq<Text>) returns (zOut: array<Byte>, nOut: nat)
    requires argv != [] && NulFreeRules(Rules(argv)) && Ends(argv[0], Rules(argv))
    ensures nOut <= zOut.Length && zOut[..nOut] == Substitute(argv[0], Rules(argv))
  {
    hide NextCopy, Substitute, FirstMatch;
    var zIn := argv[0];
    ghost var rules := Rules(argv);
    ghost var goal, written: Text := Substitute(zIn, rules), [];
    zOut := new Byte[0];
    nOut := 0;
    var i := 0;
    assert zIn[0..] == zIn;
    while i < |zIn|
      invariant i <= |zIn| && nOut <= zOut.Length && fresh(zOut) && written == zOut[..nOut]
      invariant Ends(zIn[i..], rules) && written + Substitute(zIn[i..], rules) == goal
      decreases |zIn| - i
    {
      var zCopy, nReplace := zIn[i..][..1], 1;
      var j := FindRule(argv, zIn[i..]);
      if j + 1 < |argv| {
        zCopy, nReplace := argv[j + 1], |argv[j]|;
      }
      var next := i + nReplace;
      SubstituteNext(zIn, rules, i, nReplace, next, zCopy, written, goal);
      zOut := Append(zOut, nOut, zCopy);
      written := written + zCopy;
      i, nOut := next, nOut + |zCopy|;
    }
    assert zIn[i..] == [];
    SubstituteNothing(rules);
  }
}
