/** Bytes as the codec sees them: the stream is a sequence of 8-bit values, and
    the grammar is made of a handful of ASCII bytes. */
module Bytes {

  type byte = b: int | 0 <= b < 256

  const NUL: byte := 0
  const TAB: byte := 9
  const LF: byte := 10
  const VT: byte := 11
  const FF: byte := 12
  const CR: byte := 13
  const SPACE: byte := 32
  const QUOTE: byte := 34
  const PLUS: byte := 43
  const MINUS: byte := 45
  const ZERO: byte := 48
  const NINE: byte := 57
  const SEMICOLON: byte := 59
  const LBRACKET: byte := 91
  const BACKSLASH: byte := 92
  const RBRACKET: byte := 93
  const PIPE: byte := 124

  predicate IsDigit(b: byte) {
    ZERO <= b <= NINE
  }

  /** The bytes the deserializer's whitespace/separator skipper discards. */
  predicate IsSeparator(b: byte) {
    b == SPACE || b == SEMICOLON || b == LF || b == TAB || b == CR
  }

  /** The C library's `isspace` in the "C" locale, as used by `strtoll`. */
  predicate IsSpace(b: byte) {
    b == SPACE || b == TAB || b == LF || b == VT || b == FF || b == CR
  }

  /** `n` repetitions of one byte. */
  function Repeat(b: byte, n: nat): (r: seq<byte>)
    ensures |r| == n
    ensures forall i :: 0 <= i < n ==> r[i] == b
  {
    seq(n, _ => b)
  }

  lemma RepeatSucc(b: byte, n: nat)
    ensures Repeat(b, n + 1) == Repeat(b, n) + [b]
  {
  }

  /** `data` holds `s` starting at index `k`. */
  predicate HoldsAt(data: seq<byte>, k: nat, s: seq<byte>) {
    k + |s| <= |data| && forall i :: 0 <= i < |s| ==> data[k + i] == s[i]
  }

  lemma HoldsAtSplit(data: seq<byte>, k: nat, a: seq<byte>, b: seq<byte>)
    requires HoldsAt(data, k, a + b)
    ensures HoldsAt(data, k, a) && HoldsAt(data, k + |a|, b)
  {
    forall i | 0 <= i < |a|
      ensures data[k + i] == a[i]
    {
      assert (a + b)[i] == a[i];
    }
    forall i | 0 <= i < |b|
      ensures data[k + |a| + i] == b[i]
    {
      assert (a + b)[|a| + i] == b[i];
    }
  }

  lemma HoldsAtIndex(data: seq<byte>, k: nat, s: seq<byte>, i: nat)
    requires HoldsAt(data, k, s) && i < |s|
    ensures data[k + i] == s[i]
  {
  }

  /** What `data` holds at `k` is the slice of `data` starting there. */
  lemma HoldsAtSlice(data: seq<byte>, k: nat, s: seq<byte>)
    requires k + |s| <= |data|
    ensures HoldsAt(data, k, s) <==> data[k..k + |s|] == s
  {
  }

  lemma AppendAssoc(a: seq<byte>, b: seq<byte>, c: seq<byte>)
    ensures (a + b) + c == a + (b + c)
  {
  }

  lemma AppendAssoc5(s: seq<byte>, a: seq<byte>, b: seq<byte>, c: seq<byte>, d: seq<byte>, f: seq<byte>)
    ensures s + a + b + c + d + f == s + (a + b + c + d + f)
  {
  }
}
