/** C escapes: the text that is written between double quotes, and the decoder that works in place. */
module Escapes {
  import opened Bytes

  const LOWER_N: Byte := 110
  const LOWER_R: Byte := 114
  const LOWER_T: Byte := 116
  const ZERO: Byte := 48

  predicate OctalDigit(b: Byte) {
    48 <= b <= 55
  }

  function OctalValue(b: Byte): nat
    requires OctalDigit(b)
  {
    b - 48
  }

  // ----- encoding

  function EscapeByte(b: Byte): (r: Text)
    ensures r != []
  {
    if b == BACKSLASH then [BACKSLASH, BACKSLASH]
    else if b == TAB then [BACKSLASH, LOWER_T]
    else if b == NEWLINE then [BACKSLASH, LOWER_N]
    else if b == RETURN then [BACKSLASH, LOWER_R]
    else if !Printable(b) then [BACKSLASH, ZERO + b / 64, ZERO + b / 8 % 8, ZERO + b % 8]
    else [b]
  }

  /** What is written for each byte. Bytes are given as characters or numbers here. */
  lemma EscapeByteExact(b: Byte)
    ensures b == '\\' as int ==> EscapeByte(b) == ['\\' as int, '\\' as int]
    ensures b == 9 ==> EscapeByte(b) == ['\\' as int, 't' as int]
    ensures b == 10 ==> EscapeByte(b) == ['\\' as int, 'n' as int]
    ensures b == 13 ==> EscapeByte(b) == ['\\' as int, 'r' as int]
    ensures (b < 32 || 126 < b) && b != 9 && b != 10 && b != 13 ==>
      && |EscapeByte(b)| == 4 && EscapeByte(b)[0] == '\\' as int
      && (forall i :: 1 <= i <= 3 ==> '0' as int <= EscapeByte(b)[i] <= '7' as int)
      && b == 64 * (EscapeByte(b)[1] - 48) + 8 * (EscapeByte(b)[2] - 48) + (EscapeByte(b)[3] - 48)
    ensures 32 <= b <= 126 && b != '\\' as int ==> EscapeByte(b) == [b]
  {
    ThreeOctalDigits(b);
  }

  lemma ThreeOctalDigits(b: Byte)
    ensures b / 64 <= 3 && b / 8 % 8 <= 7 && b % 8 <= 7
    ensures b == 64 * (b / 64) + 8 * (b / 8 % 8) + b % 8
  {
  }

  function Escape(s: Text): Text {
    if s == [] then [] else EscapeByte(s[0]) + Escape(s[1..])
  }

  lemma {:induction false} EscapeAppend(s: Text, b: Byte)
    ensures Escape(s + [b]) == Escape(s) + EscapeByte(b)
    decreases |s|
  {
    if s == [] {
      assert Escape([b]) == EscapeByte(b) + [];
    } else {
      assert (s + [b])[1..] == s[1..] + [b];
      EscapeAppend(s[1..], b);
    }
  }

  // ----- decoding

  /** One decoded byte and the number of bytes it was read from. An octal value loses what exceeds a byte. */
  function DecodeOne(s: Text): (r: (Byte, nat))
    requires s != [] && (s[0] == BACKSLASH ==> |s| >= 2)
    ensures 1 <= r.1 <= |s|
  {
    if s[0] != BACKSLASH then (s[0], 1)
    else if s[1] == LOWER_N then (NEWLINE, 2)
    else if s[1] == LOWER_T then (TAB, 2)
    else if s[1] == LOWER_R then (RETURN, 2)
    else if OctalDigit(s[1]) then
      var one := OctalValue(s[1]);
      if |s| >= 3 && OctalDigit(s[2]) then
        var two := 8 * one + OctalValue(s[2]);
        if |s| >= 4 && OctalDigit(s[3]) then ((8 * two + OctalValue(s[3])) % 256, 4) else (two, 3)
      else (one, 2)
    else (s[1], 2)
  }

  /** The number that octal digits stand for. */
  function Octal(digits: Text): nat
    requires forall i :: 0 <= i < |digits| ==> '0' as int <= digits[i] <= '7' as int
    decreases |digits|
  {
    if digits == [] then 0
    else 8 * Octal(digits[..|digits| - 1]) + (digits[|digits| - 1] - '0' as int)
  }

  /** One to three octal digits are at hand, and either three or no more than that. */
  predicate OctalEscape(s: Text, k: nat) {
    && 1 <= k <= 3 && k < |s| && s[0] == '\\' as int
    && (forall i :: 1 <= i <= k ==> '0' as int <= s[i] <= '7' as int)
    && (k < 3 && k + 1 < |s| ==> !('0' as int <= s[k + 1] <= '7' as int))
  }

  /** A backslash with octal digits stands for their value modulo 256, and takes up just these bytes. */
  lemma DecodeOctalExact(s: Text, k: nat)
    requires OctalEscape(s, k)
    ensures DecodeOne(s) == (Octal(s[1..k + 1]) % 256, k + 1)
  {
    assert s[1..1] == [] && s[1..2][..0] == [];
    assert Octal(s[1..2]) == s[1] - 48;
    if k >= 2 {
      assert s[1..3][..1] == s[1..2];
      assert Octal(s[1..3]) == 8 * (s[1] - 48) + (s[2] - 48);
    }
    if k == 3 {
      assert s[1..4][..2] == s[1..3];
    }
  }

  /** What is read when there are no octal digits at hand. */
  lemma DecodeOtherExact(s: Text)
    requires s != [] && (s[0] == '\\' as int ==> |s| >= 2)
    ensures s[0] != '\\' as int ==> DecodeOne(s) == (s[0], 1)
    ensures s[0] == '\\' as int && s[1] == 'n' as int ==> DecodeOne(s) == (10, 2)
    ensures s[0] == '\\' as int && s[1] == 't' as int ==> DecodeOne(s) == (9, 2)
    ensures s[0] == '\\' as int && s[1] == 'r' as int ==> DecodeOne(s) == (13, 2)
    ensures s[0] == '\\' as int && s[1] !in {'n' as int, 't' as int, 'r' as int} && !('0' as int <= s[1] <= '7' as int) ==>
      DecodeOne(s) == (s[1], 2)
  {
  }

  lemma OctalRead(t: Text, k: nat, value: nat)
    requires OctalEscape(t, k)
    requires k == 1 ==> value == OctalValue(t[1])
    requires k == 2 ==> value == 8 * OctalValue(t[1]) + OctalValue(t[2])
    requires k == 3 ==> value == 8 * (8 * OctalValue(t[1]) + OctalValue(t[2])) + OctalValue(t[3])
    ensures DecodeOne(t) == (value % 256, k + 1)
  {
  }

  /** How many octal digits an escape has. */
  lemma OctalEscapeFound(s: Text) returns (k: nat)
    requires |s| >= 2 && s[0] == '\\' as int && '0' as int <= s[1] <= '7' as int
    ensures OctalEscape(s, k)
  {
    k := if |s| < 3 || !OctalDigit(s[2]) then 1 else if |s| < 4 || !OctalDigit(s[3]) then 2 else 3;
  }

  /** No escape is cut off by the end of the text. */
  predicate WellEscaped(s: Text)
    decreases |s|
  {
    if s == [] then true
    else (s[0] == BACKSLASH ==> |s| >= 2) && WellEscaped(s[DecodeOne(s).1..])
  }

  /** How many backslashes a text ends in. */
  function Trailing(s: Text): (k: nat)
    ensures k <= |s|
    decreases |s|
  {
    if s == [] || s[|s| - 1] != '\\' as int then 0 else Trailing(s[..|s| - 1]) + 1
  }

  lemma {:induction false} TrailingConcat(a: Text, b: Text)
    ensures Trailing(a + b) == if Trailing(b) == |b| then Trailing(a) + |b| else Trailing(b)
    decreases |b|
  {
    if b == [] {
      assert a + b == a;
    } else {
      assert (a + b)[..|a + b| - 1] == a + b[..|b| - 1];
      TrailingConcat(a, b[..|b| - 1]);
    }
  }

  lemma TrailingEscape(s: Text)
    requires s != [] && (s[0] == '\\' as int ==> |s| >= 2)
    ensures Trailing(s[..DecodeOne(s).1]) % 2 == 0
  {
    var k := DecodeOne(s).1;
    var t := s[..k];
    if t[k - 1] == '\\' as int {
      assert k == 2 && t[..1][..0] == [];
      assert Trailing(t) == Trailing(t[..1]) + 1 && Trailing(t[..1]) == 1;
    }
  }

  /** An escape is cut off exactly if the text ends in an odd number of backslashes. */
  lemma {:induction false} WellEscapedIff(s: Text)
    ensures WellEscaped(s) <==> Trailing(s) % 2 == 0
    decreases |s|
  {
    hide DecodeOne;
    if s != [] {
      if s[0] == '\\' as int && |s| < 2 {
        assert s[..0] == [];
      } else {
        var k := DecodeOne(s).1;
        TrailingEscape(s);
        TrailingConcat(s[..k], s[k..]);
        assert s[..k] + s[k..] == s;
        WellEscapedIff(s[k..]);
      }
    }
  }

  function Unescape(s: Text): (r: Text)
    requires WellEscaped(s)
    ensures |r| <= |s|
    decreases |s|
  {
    if s == [] then [] else [DecodeOne(s).0] + Unescape(s[DecodeOne(s).1..])
  }

  /** So the decoded text starts with that byte, and goes on behind the digits. */
  lemma UnescapeOctal(s: Text, k: nat)
    requires OctalEscape(s, k) && WellEscaped(s)
    ensures WellEscaped(s[k + 1..])
    ensures Unescape(s) == [Octal(s[1..k + 1]) % 256] + Unescape(s[k + 1..])
  {
    hide DecodeOne;
    DecodeOctalExact(s, k);
  }

  /** An escape without octal digits, or a byte that is no backslash. */
  lemma UnescapeOther(s: Text)
    requires s != [] && WellEscaped(s)
    ensures s[0] != '\\' as int ==> WellEscaped(s[1..]) && Unescape(s) == [s[0]] + Unescape(s[1..])
    ensures s[0] == '\\' as int ==> |s| >= 2
    ensures s[0] == '\\' as int && !('0' as int <= s[1] <= '7' as int) ==>
      && WellEscaped(s[2..])
      && Unescape(s) == [if s[1] == 'n' as int then 10 else if s[1] == 't' as int then 9
                         else if s[1] == 'r' as int then 13 else s[1]] + Unescape(s[2..])
  {
    hide DecodeOne;
    DecodeOtherExact(s);
  }

  // ----- decoding undoes encoding

  /** Three octal digits are never extended by a digit that follows them. */
  lemma DecodeEscapedByte(b: Byte, rest: Text)
    ensures DecodeOne(EscapeByte(b) + rest) == (b, |EscapeByte(b)|)
  {
    var t := EscapeByte(b) + rest;
    EscapeByteExact(b);
    if (b < 32 || 126 < b) && b != 9 && b != 10 && b != 13 {
      hide DecodeOne, EscapeByte;
      assert t[0] == EscapeByte(b)[0] && t[1] == EscapeByte(b)[1] && t[2] == EscapeByte(b)[2] && t[3] == EscapeByte(b)[3];
      OctalRead(t, 3, b);
    } else {
      assert t[0] == EscapeByte(b)[0];
      assert |EscapeByte(b)| == 2 ==> t[1] == EscapeByte(b)[1];
    }
  }

  lemma {:induction false} EscapeRoundTrip(s: Text)
    ensures WellEscaped(Escape(s)) && Unescape(Escape(s)) == s
    decreases |s|
  {
    if s != [] {
      var rest := Escape(s[1..]);
      DecodeEscapedByte(s[0], rest);
      EscapeRoundTrip(s[1..]);
      assert (EscapeByte(s[0]) + rest)[|EscapeByte(s[0])|..] == rest;
      assert [s[0]] + s[1..] == s;
    }
  }

  /** The encoded text is printable, so it is free of NUL. */
  lemma {:induction false} EscapePrintable(s: Text)
    ensures forall b :: b in Escape(s) ==> Printable(b)
    decreases |s|
  {
    if s != [] {
      EscapePrintable(s[1..]);
      assert forall b :: b in EscapeByte(s[0]) ==> Printable(b);
    }
  }

  /** A buffer that holds an encoded text decodes to the text, whatever the buffer holds behind it. */
  lemma EscapedBufferDecodes(s: Text, rest: Text)
    ensures var buffer := Escape(s) + [NUL] + rest;
            Terminated(buffer) && WellEscaped(CString(buffer)) && Unescape(CString(buffer)) == s
  {
    var buffer := Escape(s) + [NUL] + rest;
    EscapePrintable(s);
    EscapeRoundTrip(s);
    assert buffer[..|Escape(s)|] == Escape(s);
    CStringUnique(buffer, |Escape(s)|);
  }

  /** Reads up to three octal digits of the C string s, of which there is one at the given index. */
  method DecodeOctal(z: array<Byte>, start: nat, ghost s: Text) returns (c: Byte, last: nat)
    requires start + 1 < |s| < z.Length && z[|s|] == NUL
    requires forall k :: start <= k < |s| ==> z[k] == s[k]
    requires s[start] == BACKSLASH && OctalDigit(s[start + 1])
    ensures DecodeOne(s[start..]) == (c, last + 1 - start)
  {
    hide DecodeOne;
    ghost var t := s[start..];
    assert forall k :: 0 <= k < |t| ==> z[start + k] == t[k];
    assert |t| > 2 ==> t[2] == z[start + 2];
    assert |t| > 3 ==> t[3] == z[start + 3];
    last := start + 1;
    var value := OctalValue(z[last]);
    if OctalDigit(z[last + 1]) {
      last := last + 1;
      value := 8 * value + OctalValue(z[last]);
      if OctalDigit(z[last + 1]) {
        last := last + 1;
        value := 8 * value + OctalValue(z[last]);
      }
    }
    OctalRead(t, last - start, value);
    c := value % 256;
  }

  /** Reads the byte or escape of the C string s that starts at an index, and says where the next one starts. */
  method DecodeAt(z: array<Byte>, start: nat, ghost s: Text) returns (c: Byte, next: nat)
    requires start < |s| < z.Length && NulFree(s) && z[|s|] == NUL
    requires forall k :: start <= k < |s| ==> z[k] == s[k]
    requires s[start] == BACKSLASH ==> start + 1 < |s|
    ensures DecodeOne(s[start..]) == (c, next - start)
    ensures s[start] == '\\' as int && '0' as int <= s[start + 1] <= '7' as int ==>
      OctalEscape(s[start..], next - 1 - start) && c == Octal(s[start..][1..next - start]) % 256
  {
    var i := start;
    c := z[i];
    if c == BACKSLASH {
      i := i + 1;
      c := z[i];
      assert s[start..][1] == c;
      if c == LOWER_N {
        c := NEWLINE;
      } else if c == LOWER_T {
        c := TAB;
      } else if c == LOWER_R {
        c := RETURN;
      } else if OctalDigit(c) {
        c, i := DecodeOctal(z, start, s);
      }
    }
    next := i + 1;
    if s[start] == BACKSLASH && OctalDigit(s[start + 1]) {
      OctalReading(s[start..], c, next - start);
    }
  }

  lemma OctalReading(t: Text, c: Byte, n: nat)
    requires |t| >= 2 && t[0] == '\\' as int && '0' as int <= t[1] <= '7' as int && DecodeOne(t) == (c, n)
    ensures OctalEscape(t, n - 1) && c == Octal(t[1..n]) % 256
  {
    hide DecodeOne, Octal, OctalEscape;
    var k := OctalEscapeFound(t);
    DecodeOctalExact(t, k);
  }

  lemma UnescapeNext(s: Text, i: nat, next: nat, c: Byte)
    requires i < |s| && WellEscaped(s[i..]) && DecodeOne(s[i..]) == (c, next - i)
    ensures i < next <= |s| && WellEscaped(s[next..]) && Unescape(s[i..]) == [c] + Unescape(s[next..])
  {
    hide DecodeOne;
    assert s[i..][next - i..] == s[next..];
  }

  /** The same, said of the decoded text. */
  method DecodeNext(z: array<Byte>, start: nat, ghost s: Text) returns (c: Byte, next: nat)
    requires start < |s| < z.Length && NulFree(s) && z[|s|] == NUL
    requires forall k :: start <= k < |s| ==> z[k] == s[k]
    requires WellEscaped(s[start..])
    ensures start < next <= |s| && WellEscaped(s[next..]) && Unescape(s[start..]) == [c] + Unescape(s[next..])
  {
    WellEscapedAt(s, start);
    c, next := DecodeAt(z, start, s);
    UnescapeNext(s, start, next, c);
  }

  /** Decodes the C string in the buffer, in the buffer; the write index never passes the read index. */
  method ResolveBackslashes(z: array<Byte>)
    requires Terminated(z[..]) && WellEscaped(CString(z[..]))
    modifies z
    ensures var decoded := Unescape(CString(old(z[..])));
            z[..] == decoded + [NUL] + old(z[..])[|decoded| + 1..]
  {
    hide Unescape, WellEscaped, StrLen;
    ghost var s, buffer := CString(z[..]), z[..];
    var j := DecodeLoop(z, s);
    z[j] := NUL;
    assert z[..] == Unescape(s) + [NUL] + buffer[j + 1..];
  }

  /** The loop of the decoder: the decoded text takes up the start of the buffer, the rest is unchanged. */
  method DecodeLoop(z: array<Byte>, ghost s: Text) returns (j: nat)
    requires |s| < z.Length && z[|s|] == NUL && NulFree(s) && WellEscaped(s)
    requires forall k :: 0 <= k < |s| ==> z[k] == s[k]
    modifies z
    ensures j == |Unescape(s)| <= |s|
    ensures forall k :: 0 <= k < j ==> z[k] == Unescape(s)[k]
    ensures forall k :: j <= k < z.Length ==> z[k] == old(z[k])
  {
    hide DecodeOne;
    ghost var decoded := Unescape(s);
    assert forall k :: 0 <= k < |s| ==> s[k] != NUL;
    var i := 0;
    j := 0;
    assert s[0..] == s;
    while z[i] != NUL
      invariant j <= i <= |s| && j <= |decoded|
      invariant forall k :: j <= k < z.Length ==> z[k] == old(z[k])
      invariant forall k :: 0 <= k < j ==> z[k] == decoded[k]
      invariant WellEscaped(s[i..]) && Unescape(s[i..]) == decoded[j..]
      decreases |s| - i
    {
      var c, next := DecodeNext(z, i, s);
      assert decoded[j..][1..] == decoded[j + 1..];
      z[j] := c;
      i, j := next, j + 1;
    }
    assert s[i..] == [];
  }

  lemma WellEscapedAt(s: Text, i: nat)
    requires i < |s| && WellEscaped(s[i..])
    ensures s[i] == BACKSLASH ==> i + 1 < |s|
  {
    assert s[i..][0] == s[i];
  }
}
