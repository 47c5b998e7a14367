/** Bytes, texts and C strings, as the text routines of the shell see them. */
module Bytes {

  type Byte = b: int | 0 <= b <= 255

  type Text = seq<Byte>

  const NUL: Byte := 0
  const TAB: Byte := 9
  const NEWLINE: Byte := 10
  const RETURN: Byte := 13
  const DOUBLE_QUOTE: Byte := 34
  const SINGLE_QUOTE: Byte := 39
  const BACKSLASH: Byte := 92

  predicate NulFree(s: Text) {
    NUL !in s
  }

  /** A buffer that holds a C string. */
  predicate Terminated(buffer: Text) {
    NUL in buffer
  }

  function StrLen(buffer: Text): (n: nat)
    requires Terminated(buffer)
    ensures n < |buffer| && buffer[n] == NUL && NulFree(buffer[..n])
    decreases |buffer|
  {
    if buffer[0] == NUL then 0
    else
      var n := StrLen(buffer[1..]);
      assert buffer[..n + 1] == [buffer[0]] + buffer[1..][..n];
      n + 1
  }

  /** The C string in a buffer. */
  function CString(buffer: Text): (s: Text)
    requires Terminated(buffer)
    ensures NulFree(s)
  {
    buffer[..StrLen(buffer)]
  }

  lemma CStringUnique(buffer: Text, n: nat)
    requires n < |buffer| && buffer[n] == NUL && NulFree(buffer[..n])
    ensures Terminated(buffer) && StrLen(buffer) == n && CString(buffer) == buffer[..n]
  {
    var m := StrLen(buffer);
    assert forall k :: 0 <= k < n ==> buffer[..n][k] in buffer[..n];
    assert forall k :: 0 <= k < m ==> buffer[..m][k] in buffer[..m];
  }

  predicate Letter(b: Byte) {
    'A' as int <= b <= 'Z' as int || 'a' as int <= b <= 'z' as int
  }

  predicate Digit(b: Byte) {
    '0' as int <= b <= '9' as int
  }

  /** Printable in the C locale. */
  predicate Printable(b: Byte) {
    32 <= b <= 126
  }
}
