/** Bytes, the character constants the protocol uses, and the optional value. */
module Bytes {

  type Byte = b: int | 0 <= b < 256

  datatype Option<+T> = None | Some(value: T)

  const NUL: Byte := 0
  const BEL: Byte := 7
  const BS: Byte := 8
  const TAB: Byte := 9
  const LF: Byte := 10
  const CR: Byte := 13
  const SPACE: Byte := 32
  const DQUOTE: Byte := 34
  const DOLLAR: Byte := 36
  const PERCENT: Byte := 37
  const SQUOTE: Byte := 39
  const STAR: Byte := 42
  const PLUS: Byte := 43
  const MINUS: Byte := 45
  const ZERO: Byte := 48
  const COLON: Byte := 58
  const BACKSLASH: Byte := 92

  const CRLF: seq<Byte> := [CR, LF]

  const LLONG_MAX: int := 0x7fff_ffff_ffff_ffff
  const ULLONG_MAX: int := 0xffff_ffff_ffff_ffff
  const INT_MAX: int := 0x7fff_ffff

  predicate IsAscii(text: string) {
    forall i :: 0 <= i < |text| ==> text[i] < 128 as char
  }

  /** The bytes of a text written out. */
  function Ascii(text: string): (t: seq<Byte>)
    requires IsAscii(text)
    ensures |t| == |text|
  {
    seq(|text|, i requires 0 <= i < |text| => text[i] as int)
  }

  predicate IsDigit(b: Byte) {
    ZERO <= b <= ZERO + 9
  }

  lemma SliceOfSlice<T>(s: seq<T>, a: nat, b: nat, p: nat, q: nat)
    requires a <= b <= |s| && p <= q <= b - a
    ensures s[a..b][p..q] == s[a + p..a + q]
  {
    var t := s[a..b];
    forall i | 0 <= i < q - p
      ensures t[p..q][i] == s[a + p..a + q][i]
    {
      assert t[p..q][i] == t[p + i];
    }
    assert t[p..q] == s[a + p..a + q];
  }

  lemma Cut<T>(s: seq<T>, a: nat, b: nat, c: nat)
    requires a <= b <= c <= |s|
    ensures s[a..c] == s[a..b] + s[b..c]
  {
  }

  lemma Assoc<T>(a: seq<T>, b: seq<T>, c: seq<T>)
    ensures a + b + c == a + (b + c)
  {
  }

  lemma TakeDrop<T>(a: seq<T>, b: seq<T>)
    ensures (a + b)[..|a|] == a && (a + b)[|a|..] == b
  {
  }
}
