/** Decimal text: the digit writers of sds.c, the digit counter of hiredis.c and
    the number reader of read.c, all measured against one definition of decimal notation. */
module Decimal {
  import opened Bytes

  /** The value a string of decimal digits stands for. */
  function Value(ds: seq<Byte>): nat
    requires AllDigits(ds)
  {
    if ds == [] then 0
    else
      assert IsDigit(ds[|ds| - 1]);
      Value(ds[..|ds| - 1]) * 10 + (ds[|ds| - 1] - ZERO)
  }

  predicate AllDigits(ds: seq<Byte>) {
    forall i :: 0 <= i < |ds| ==> IsDigit(ds[i])
  }

  /** Decimal notation without leading zeros, most significant digit first. */
  function Dec(n: nat): (ds: seq<Byte>)
    ensures ds != [] && AllDigits(ds)
  {
    if n < 10 then [ZERO + n] else Dec(n / 10) + [ZERO + n % 10]
  }

  /** Signed decimal notation. */
  function Signed(v: int): (ds: seq<Byte>)
    ensures ds != []
  {
    if v < 0 then [MINUS] + Dec(-v) else Dec(v)
  }

  lemma {:induction false} ValueOfDec(n: nat)
    ensures Value(Dec(n)) == n
  {
    if n < 10 {
      assert Dec(n)[..0] == [];
    } else {
      ValueOfDec(n / 10);
      assert Dec(n)[..|Dec(n)| - 1] == Dec(n / 10);
    }
  }

  lemma {:induction false} ValueIsMonotone(ds: seq<Byte>, k: nat)
    requires AllDigits(ds) && k <= |ds|
    ensures Value(ds[..k]) <= Value(ds)
    decreases |ds|
  {
    if k < |ds| {
      ValueIsMonotone(ds[..|ds| - 1], k);
      assert ds[..|ds| - 1][..k] == ds[..k];
    } else {
      assert ds[..k] == ds;
    }
  }

  function Pow10(k: nat): nat {
    if k == 0 then 1 else 10 * Pow10(k - 1)
  }

  /** Both directions: k digits suffice exactly for the numbers below 10^k. */
  lemma {:induction false} DecLength(n: nat, k: nat)
    requires k >= 1
    ensures |Dec(n)| <= k <==> n < Pow10(k)
    decreases k
  {
    if k == 1 {
      assert Pow10(1) == 10 * Pow10(0);
    } else if n < 10 {
      Pow10Positive(k - 1);
    } else {
      DecLength(n / 10, k - 1);
      assert n < 10 * Pow10(k - 1) <==> n / 10 < Pow10(k - 1);
    }
  }

  lemma Pow10Positive(k: nat)
    ensures Pow10(k) >= 1
  {
  }

  lemma {:induction false} Pow10Splits(j: nat, k: nat)
    ensures Pow10(j + k) == Pow10(j) * Pow10(k)
  {
    if j > 0 {
      Pow10Splits(j - 1, k);
    }
  }

  lemma LongLongFits(v: int)
    requires -LLONG_MAX <= v <= LLONG_MAX
    ensures |Signed(v)| <= 20
  {
    var n := if v < 0 then -v else v;
    assert Pow10(9) == 1_000_000_000;
    assert Pow10(19) == 10_000_000_000_000_000_000 by { Pow10Splits(9, 10); }
    DecLength(n, 19);
  }

  lemma UnsignedFits(v: nat)
    requires v <= ULLONG_MAX
    ensures |Dec(v)| <= 20
  {
    assert Pow10(10) == 10_000_000_000;
    assert Pow10(20) == 100_000_000_000_000_000_000 by { Pow10Splits(10, 10); }
    DecLength(v, 20);
  }

  // ----- Writing numbers (sds.c) -----

  function Reversed(s: seq<Byte>): (r: seq<Byte>)
    ensures |r| == |s|
    ensures forall i :: 0 <= i < |s| ==> r[i] == s[|s| - 1 - i]
  {
    seq(|s|, i requires 0 <= i < |s| => s[|s| - 1 - i])
  }

  lemma ReversedTwice(s: seq<Byte>, r: seq<Byte>)
    requires r == Reversed(s)
    ensures Reversed(r) == s
  {
  }

  lemma ReversedGrows(s: seq<Byte>, b: Byte)
    ensures Reversed(s + [b]) == [b] + Reversed(s)
    ensures Reversed([b] + s) == Reversed(s) + [b]
  {
  }

  /** The digits still to be written: none for zero. */
  function High(v: nat): seq<Byte> {
    if v == 0 then [] else Dec(v)
  }

  lemma HighUnfolds(v: nat)
    ensures v > 0 ==> High(v) == High(v / 10) + [ZERO + v % 10]
    ensures Dec(v) == High(v / 10) + [ZERO + v % 10]
  {
  }

  lemma DigitWritten(text: seq<Byte>, v: nat, done: seq<Byte>)
    requires v > 0 && text == High(v) + Reversed(done)
    ensures |done| < |text| && text == High(v / 10) + Reversed(done + [ZERO + v % 10])
  {
    HighUnfolds(v);
    ReversedGrows(done, ZERO + v % 10);
    Assoc(High(v / 10), [ZERO + v % 10], Reversed(done));
  }

  /** The digit loop shared by both writers: least significant digit first. */
  method WriteDigits(s: array<Byte>, value: nat) returns (p: nat)
    requires |Dec(value)| <= s.Length
    modifies s
    ensures 1 <= p <= s.Length && s[..p] == Reversed(Dec(value))
    ensures forall k :: p <= k < s.Length ==> s[k] == old(s[k])
  {
    ghost var text := Dec(value);
    HighUnfolds(value);
    s[0] := ZERO + value % 10;
    assert Reversed(s[..1]) == [s[0]];
    p := MoreDigits(s, value / 10, text);
    ReversedTwice(s[..p], text);
  }

  method MoreDigits(s: array<Byte>, v0: nat, ghost text: seq<Byte>) returns (p: nat)
    requires 1 <= |text| <= s.Length && text == High(v0) + Reversed(s[..1])
    modifies s
    ensures 1 <= p <= s.Length && text == Reversed(s[..p])
    ensures forall k :: p <= k < s.Length ==> s[k] == old(s[k])
  {
    var v := v0;
    p := 1;
    while v != 0
      invariant 1 <= p <= s.Length && text == High(v) + Reversed(s[..p])
      invariant forall k :: p <= k < s.Length ==> s[k] == old(s[k])
    {
      ghost var done := s[..p];
      DigitWritten(text, v, done);
      s[p] := ZERO + v % 10;
      assert s[..p + 1] == done + [ZERO + v % 10];
      v := v / 10;
      p := p + 1;
    }
    assert High(0) + Reversed(s[..p]) == Reversed(s[..p]);
  }

  /** The in-place reversal loop shared by both writers. */
  method ReversePrefix(s: array<Byte>, l: nat)
    requires l <= s.Length
    modifies s
    ensures s[..l] == Reversed(old(s[..l]))
    ensures forall k :: l <= k < s.Length ==> s[k] == old(s[k])
  {
    ghost var was := s[..];
    var i, j := 0, l - 1;
    while i < j
      invariant 0 <= i <= j + 2 <= l + 1 && j == l - 1 - i
      invariant forall k :: 0 <= k < i || j < k < l ==> s[k] == was[l - 1 - k]
      invariant forall k :: i <= k <= j || l <= k < s.Length ==> s[k] == was[k]
    {
      s[i], s[j] := s[j], s[i];
      i, j := i + 1, j - 1;
    }
    ghost var turned := Reversed(was[..l]);
    forall k | 0 <= k < l
      ensures s[..l][k] == turned[k]
    {
      assert turned[k] == was[..l][l - 1 - k] == was[l - 1 - k];
    }
    assert s[..l] == turned;
  }

  const SDS_LLSTR_SIZE := 21

  /** sdsll2str: signed decimal text and its terminator, in a 21-byte buffer. */
  method Ll2Str(s: array<Byte>, value: int) returns (l: nat)
    requires s.Length >= 21
    requires -LLONG_MAX <= value <= LLONG_MAX
    modifies s
    ensures l < 21
    ensures s[..l] == Signed(value) && s[l] == NUL
    ensures forall k :: l < k < s.Length ==> s[k] == old(s[k])
  {
    LongLongFits(value);
    ghost var text := Signed(value);
    l := WriteDigits(s, if value < 0 then -value else value);
    if value < 0 {
      ReversedGrows(Dec(-value), MINUS);
      s[l] := MINUS;
      l := l + 1;
    }
    ghost var written := s[..l];
    assert written == Reversed(text);
    s[l] := NUL;
    assert s[..l] == written;
    ReversePrefix(s, l);
    ReversedTwice(text, written);
  }

  /** sdsull2str: the same for unsigned values up to 2^64 - 1. */
  method Ull2Str(s: array<Byte>, value: nat) returns (l: nat)
    requires s.Length >= 21
    requires value <= ULLONG_MAX
    modifies s
    ensures l < 21
    ensures s[..l] == Dec(value) && s[l] == NUL
    ensures forall k :: l < k < s.Length ==> s[k] == old(s[k])
  {
    UnsignedFits(value);
    l := WriteDigits(s, value);
    ghost var digits := s[..l];
    s[l] := NUL;
    assert s[..l] == digits;
    ReversePrefix(s, l);
  }

  // ----- Counting digits (hiredis.c) -----

  lemma DecDropsFour(v: nat)
    requires v >= 10000
    ensures |Dec(v)| == |Dec(v / 10000)| + 4
  {
    assert v / 10 / 10 / 10 / 10 == v / 10000;
    assert |Dec(v)| == |Dec(v / 10)| + 1;
    assert |Dec(v / 10)| == |Dec(v / 10 / 10)| + 1;
    assert |Dec(v / 10 / 10)| == |Dec(v / 10 / 10 / 10)| + 1;
  }

  /** countDigits, four digits at a time. */
  method CountDigits(value: nat) returns (result: nat)
    ensures result == |Dec(value)|
  {
    var v := value;
    result := 1;
    while true
      invariant |Dec(value)| == |Dec(v)| + result - 1
      decreases v
    {
      if v < 10 { return result; }
      if v < 100 { assert Dec(v) == Dec(v / 10) + [ZERO + v % 10]; return result + 1; }
      if v < 1000 {
        assert |Dec(v)| == |Dec(v / 10)| + 1 && |Dec(v / 10)| == |Dec(v / 10 / 10)| + 1;
        return result + 2;
      }
      if v < 10000 {
        assert |Dec(v)| == |Dec(v / 10)| + 1 && |Dec(v / 10)| == |Dec(v / 10 / 10)| + 1;
        assert |Dec(v / 10 / 10)| == |Dec(v / 10 / 10 / 10)| + 1;
        return result + 3;
      }
      DecDropsFour(v);
      v := v / 10000;
      result := result + 4;
    }
  }

  // ----- Reading numbers (read.c) -----

  /** What readLongLong yields; `Overflow` stands for signed overflow, which C leaves undefined. */
  datatype Number = Num(v: int) | Overflow

  /** The bytes before the first CR, or all of them. */
  function UpToCr(s: seq<Byte>): (t: seq<Byte>)
    ensures |t| <= |s| && t == s[..|t|] && CR !in t
    ensures |t| < |s| ==> s[|t|] == CR
  {
    if s == [] || s[0] == CR then [] else [s[0]] + UpToCr(s[1..])
  }

  /** The longest prefix made of digits. */
  function DigitPrefix(s: seq<Byte>): (t: seq<Byte>)
    ensures |t| <= |s| && t == s[..|t|] && AllDigits(t)
    ensures |t| < |s| ==> !IsDigit(s[|t|])
  {
    if s == [] || !IsDigit(s[0]) then [] else [s[0]] + DigitPrefix(s[1..])
  }

  predicate HasSign(t: seq<Byte>) {
    t != [] && (t[0] == MINUS || t[0] == PLUS)
  }

  /** Digits read as far as they go; -1 if something else follows them. */
  function NumberOf(digits: seq<Byte>, mult: int): Number {
    var good := DigitPrefix(digits);
    if Value(good) > LLONG_MAX then Overflow
    else if |good| < |digits| then Num(-1)
    else Num(mult * Value(good))
  }

  /** The number a header line denotes: an optional sign and digits, read up to
      the first CR; -1 for anything else, as the reader returns it. */
  function LongLong(line: seq<Byte>): Number {
    var t := UpToCr(line);
    if HasSign(t) then NumberOf(t[1..], if t[0] == MINUS then -1 else 1) else NumberOf(t, 1)
  }

  lemma {:induction false} UpToCrStops(line: seq<Byte>, rest: seq<Byte>)
    ensures UpToCr(line + [CR] + rest) == UpToCr(line)
  {
    if line != [] && line[0] != CR {
      UpToCrStops(line[1..], rest);
      assert (line + [CR] + rest)[1..] == line[1..] + [CR] + rest;
    }
  }

  lemma LongLongStopsAtCr(line: seq<Byte>, rest: seq<Byte>)
    ensures LongLong(line + [CR] + rest) == LongLong(line)
  {
    UpToCrStops(line, rest);
  }

  lemma NextDigit(ds: seq<Byte>, i: nat)
    requires AllDigits(ds) && i < |ds|
    ensures Value(ds[..i + 1]) == Value(ds[..i]) * 10 + (ds[i] - ZERO)
  {
    assert ds[..i + 1][..i] == ds[..i];
  }

  /** The digit loop of readLongLong. */
  method ReadDigits(s: seq<Byte>, mult: int) returns (r: Number)
    requires CR in s
    ensures r == NumberOf(UpToCr(s), mult)
  {
    ghost var t := UpToCr(s);
    ghost var good := DigitPrefix(t);
    var v, i := 0, 0;
    while s[i] != CR
      invariant i <= |good| <= |t| < |s|
      invariant v == Value(good[..i]) <= LLONG_MAX
      decreases |t| - i
    {
      assert s[i] == t[i];
      if !IsDigit(s[i]) {
        assert good[..i] == good;
        return Num(-1);
      }
      NextDigit(good, i);
      v := v * 10 + (s[i] - ZERO);
      if v > LLONG_MAX {
        ValueIsMonotone(good, i + 1);
        return Overflow;
      }
      i := i + 1;
    }
    assert i == |t| && good[..i] == good;
    return Num(mult * v);
  }

  /** readLongLong, reading in place from a buffer that holds a CR. */
  method ReadLongLong(s: seq<Byte>) returns (r: Number)
    requires CR in s
    ensures r == LongLong(s)
  {
    ghost var t := UpToCr(s);
    assert s[0] != CR ==> t[0] == s[0] && t[1..] == UpToCr(s[1..]);
    if s[0] == MINUS {
      r := ReadDigits(s[1..], -1);
    } else if s[0] == PLUS {
      r := ReadDigits(s[1..], 1);
    } else {
      r := ReadDigits(s, 1);
    }
  }

  /** Writing a number and reading it back, whatever follows the CR. */
  lemma NumberRoundTrip(v: int, rest: seq<Byte>)
    requires -LLONG_MAX <= v <= LLONG_MAX
    ensures LongLong(Signed(v) + [CR] + rest) == Num(v)
  {
    LongLongStopsAtCr(Signed(v), rest);
    var n := if v < 0 then -v else v;
    ValueOfDec(n);
    NoCrInText(Signed(v));
    DigitPrefixOfDigits(Dec(n));
    assert Signed(v)[0] == Dec(n)[0] || v < 0;
    assert v < 0 ==> Signed(v)[1..] == Dec(n);
  }

  lemma {:induction false} NoCrInText(s: seq<Byte>)
    requires forall i :: 0 <= i < |s| ==> s[i] != CR
    ensures UpToCr(s) == s
  {
    var t := UpToCr(s);
    assert |t| == |s|;
  }

  lemma DigitPrefixOfDigits(s: seq<Byte>)
    requires AllDigits(s)
    ensures DigitPrefix(s) == s
  {
    var t := DigitPrefix(s);
    assert |t| == |s|;
  }
}
