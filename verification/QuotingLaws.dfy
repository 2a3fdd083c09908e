/** Quoting and splitting at inputs written out: the exact text of a quoted string,
    and which lines sdssplitargs refuses. */
module QuotingLaws {
  import opened Bytes
  import opened Quoting

  // ----- sdscatrepr -----

  /** A byte that needs no escape. */
  predicate Harmless(b: Byte) {
    32 <= b <= 126 && b != 34 && b != 92
  }

  /** Each byte takes one, two or four bytes: itself, a letter behind a backslash, or
      two lower-case hexadecimal digits behind \x. */
  lemma EscapesAre(b: Byte)
    ensures Harmless(b) ==> Escape(b) == [b]
    ensures b == 92 || b == 34 ==> Escape(b) == [92, b]
    ensures Escape(10) == Ascii("\\n") && Escape(13) == Ascii("\\r") && Escape(9) == Ascii("\\t")
    ensures Escape(7) == Ascii("\\a") && Escape(8) == Ascii("\\b")
    ensures !(32 <= b <= 126) && b !in [10, 13, 9, 7, 8] ==>
              Escape(b) == [92, 120, HexLetter(b / 16), HexLetter(b % 16)]
  {
  }

  function HexLetter(n: int): Byte
    requires 0 <= n < 16
  {
    if n < 10 then 48 + n else 97 + (n - 10)
  }

  lemma {:induction false} HarmlessText(p: seq<Byte>)
    requires forall i :: 0 <= i < |p| ==> Harmless(p[i])
    ensures Escaped(p) == p
  {
    if p != [] {
      HarmlessText(p[1..]);
      EscapesAre(p[0]);
      assert [p[0]] + p[1..] == p;
    }
  }

  /** Text without special bytes is quoted as it stands. */
  lemma HarmlessRepr(p: seq<Byte>)
    requires forall i :: 0 <= i < |p| ==> Harmless(p[i])
    ensures Repr(p) == [34] + p + [34]
  {
    HarmlessText(p);
  }

  predicate AllPrintable(s: seq<Byte>) {
    forall i :: 0 <= i < |s| ==> 32 <= s[i] <= 126
  }

  lemma {:induction false} EscapedIsPrintable(p: seq<Byte>)
    ensures AllPrintable(Escaped(p))
  {
    if p != [] {
      EscapesAre(p[0]);
      EscapedIsPrintable(p[1..]);
    }
  }

  /** A quoted string consists of printable bytes, between double quotes. */
  lemma ReprIsPrintable(p: seq<Byte>)
    ensures AllPrintable(Repr(p)) && |Repr(p)| >= 2 && Repr(p)[0] == Repr(p)[|Repr(p)| - 1] == 34
  {
    EscapedIsPrintable(p);
  }

  lemma {:induction false} EscapedSplits(a: seq<Byte>, b: seq<Byte>)
    ensures Escaped(a + b) == Escaped(a) + Escaped(b)
  {
    if a == [] {
      assert a + b == b;
    } else {
      assert (a + b)[0] == a[0] && (a + b)[1..] == a[1..] + b;
      EscapedSplits(a[1..], b);
      Assoc(Escape(a[0]), Escaped(a[1..]), Escaped(b));
    }
  }

  lemma EscapedByte(b: Byte)
    ensures Escaped([b]) == Escape(b)
  {
    assert [b][1..] == [] && Escaped([]) == [];
    assert Escape(b) + [] == Escape(b);
  }

  lemma ThreeEscapes()
    ensures Escaped([7, 10, 0]) == Ascii("\\a") + Ascii("\\n") + Ascii("\\x00")
  {
    EscapedSplits([7, 10], [0]);
    EscapedSplits([7], [10]);
    EscapedByte(7);
    EscapedByte(10);
    EscapedByte(0);
    EscapesAre(0);
    assert [7] + [10] == [7, 10] && [7, 10] + [0] == [7, 10, 0];
  }

  /** The string of seven bytes \a \n \0 f o o \r, quoted. */
  lemma KnownRepr()
    ensures Repr([7, 10, 0] + Ascii("foo") + [13]) ==
            Ascii("\"") + (Ascii("\\a") + Ascii("\\n") + Ascii("\\x00") + Ascii("foo") + Ascii("\\r")) + Ascii("\"")
  {
    ThreeEscapes();
    EscapedSplits([7, 10, 0] + Ascii("foo"), [13]);
    EscapedSplits([7, 10, 0], Ascii("foo"));
    EscapedByte(13);
    HarmlessText(Ascii("foo"));
    assert Ascii("\"") == [34];
  }

  // ----- sdssplitargs: what is refused -----

  /** A double quote that is never closed. */
  lemma {:induction false} OpenQuoteFails(s: seq<Byte>, current: seq<Byte>)
    ensures NUL !in Escaped(s)
    ensures ReadToken(InQuotes, Escaped(s), current) == BadToken
    decreases |s|
  {
    EscapedHasNoNul(s);
    if s != [] {
      var tail := Escaped(s[1..]);
      OpenQuoteFails(s[1..], current + [s[0]]);
      EscapeIsUndone(s[0], tail);
      TurnGoes(InQuotes, Escape(s[0]), tail, current, InQuotes, [s[0]]);
    }
  }

  /** A closing double quote with something other than a blank behind it. */
  lemma {:induction false} GluedQuoteFails(s: seq<Byte>, b: Byte, rest: seq<Byte>, current: seq<Byte>)
    requires b != NUL && !IsSpace(b) && NUL !in rest
    ensures NUL !in Escaped(s) + ([34, b] + rest)
    ensures ReadToken(InQuotes, Escaped(s) + ([34, b] + rest), current) == BadToken
    decreases |s|
  {
    EscapedHasNoNul(s);
    var line := Escaped(s) + ([34, b] + rest);
    if s == [] {
      assert line == [34, b] + rest;
      assert Peek(line, 0) == 34 && Peek(line, 1) == b;
    } else {
      var tail := Escaped(s[1..]) + ([34, b] + rest);
      GluedQuoteFails(s[1..], b, rest, current + [s[0]]);
      EscapeIsUndone(s[0], tail);
      Assoc(Escape(s[0]), Escaped(s[1..]), [34, b] + rest);
      TurnGoes(InQuotes, Escape(s[0]), tail, current, InQuotes, [s[0]]);
    }
  }

  /** A line that begins with a quoted string the reader cannot finish. */
  lemma QuotedLineFails(tail: seq<Byte>)
    requires NUL !in tail && ReadToken(InQuotes, tail, []) == BadToken
    ensures NUL !in [34] + tail && SplitLine([34] + tail) == None
  {
    var line := [34] + tail;
    OpeningQuote(tail);
    WordIsFirst([], line);
    assert [] + line == line;
    SplitLineUnfolds(line, line);
  }

  /** Lines with a double quote that is never closed are refused. */
  lemma OpenQuoteIsRefused(s: seq<Byte>)
    ensures NUL !in [34] + Escaped(s) && SplitLine([34] + Escaped(s)) == None
  {
    OpenQuoteFails(s, []);
    QuotedLineFails(Escaped(s));
  }

  /** So are lines that go on right behind a closing double quote. */
  lemma GluedQuoteIsRefused(s: seq<Byte>, b: Byte, rest: seq<Byte>)
    requires b != NUL && !IsSpace(b) && NUL !in rest
    ensures NUL !in Repr(s) + ([b] + rest) && SplitLine(Repr(s) + ([b] + rest)) == None
  {
    var tail := Escaped(s) + ([34, b] + rest);
    GluedQuoteFails(s, b, rest, []);
    QuotedLineFails(tail);
    QuoteShifts(s, b, rest);
  }

  lemma QuoteShifts(s: seq<Byte>, b: Byte, rest: seq<Byte>)
    ensures Repr(s) + ([b] + rest) == [34] + (Escaped(s) + ([34, b] + rest))
  {
    Assoc([34], Escaped(s), [34]);
    Assoc([34], Escaped(s) + [34], [b] + rest);
    Assoc(Escaped(s), [34], [b] + rest);
    assert [34] + ([b] + rest) == [34, b] + rest;
  }

  /** The same for single quotes. */
  lemma {:induction false} OpenSingleQuoteFails(s: seq<Byte>, current: seq<Byte>)
    requires NUL !in s && 39 !in s
    ensures ReadToken(InSingleQuotes, s, current) == BadToken
    decreases |s|
  {
    if s != [] {
      assert Peek(s, 0) == s[0] && (|s| > 1 ==> Peek(s, 1) == s[1]);
      assert [s[0]] + s[1..] == s;
      TurnGoes(InSingleQuotes, [s[0]], s[1..], current, InSingleQuotes, [s[0]]);
      OpenSingleQuoteFails(s[1..], current + [s[0]]);
    }
  }

  /** A closing single quote with something other than a blank behind it. */
  lemma {:induction false} GluedSingleQuoteFails(s: seq<Byte>, b: Byte, rest: seq<Byte>, current: seq<Byte>)
    requires NUL !in s && 39 !in s && 92 !in s && b != NUL && !IsSpace(b) && NUL !in rest
    ensures NUL !in s + ([39, b] + rest)
    ensures ReadToken(InSingleQuotes, s + ([39, b] + rest), current) == BadToken
    decreases |s|
  {
    var line := s + ([39, b] + rest);
    if s == [] {
      assert Peek(line, 0) == 39 && Peek(line, 1) == b;
    } else {
      var tail := s[1..] + ([39, b] + rest);
      GluedSingleQuoteFails(s[1..], b, rest, current + [s[0]]);
      assert line == [s[0]] + tail && Peek(line, 0) == s[0] && s[0] in s;
      TurnGoes(InSingleQuotes, [s[0]], tail, current, InSingleQuotes, [s[0]]);
    }
  }

  // ----- sdssplitargs: words and blanks -----

  /** isspace in the C locale. */
  lemma SpacesAre(b: Byte)
    ensures IsSpace(b) <==> b in [32, 9, 10, 11, 12, 13]
  {
  }

  /** Letters behind a backslash, in double quotes: five stand for control bytes, a
      pair of hexadecimal digits behind x for its value, any other for itself. */
  lemma BackslashMeans(l: Byte, rest: seq<Byte>)
    requires l != NUL && NUL !in rest
    ensures QuotedTurn([92, 110] + rest) == Go(InQuotes, [10], 2)
    ensures QuotedTurn([92, 114] + rest) == Go(InQuotes, [13], 2)
    ensures QuotedTurn([92, 116] + rest) == Go(InQuotes, [9], 2)
    ensures QuotedTurn([92, 97] + rest) == Go(InQuotes, [7], 2) && QuotedTurn([92, 98] + rest) == Go(InQuotes, [8], 2)
    ensures l !in Ascii("nrtabx") ==> QuotedTurn([92, l] + rest) == Go(InQuotes, [l], 2)
  {
    assert forall b: Byte :: Peek([92, b] + rest, 0) == 92 && Peek([92, b] + rest, 1) == b;
    assert Ascii("nrtabx") == [110, 114, 116, 97, 98, 120];
  }

  /** A bare word, a quoted string glued to its end, and a blank make one argument. */
  lemma WordThenQuote(w: seq<Byte>, s: seq<Byte>, rest: seq<Byte>)
    requires IsWord(w) && NUL !in rest && (rest == [] || IsSpace(rest[0]))
    ensures NUL !in w + (Repr(s) + rest)
    ensures ReadToken(Plain, w + (Repr(s) + rest), []) == Token(w + s, rest)
  {
    GluedWord(w, s, rest, []);
    assert [] + w + s == w + s;
  }

  lemma QuoteBegins(s: seq<Byte>, rest: seq<Byte>, current: seq<Byte>)
    requires NUL !in rest && (rest == [] || IsSpace(rest[0]))
    ensures NUL !in Repr(s) + rest
    ensures ReadToken(Plain, Repr(s) + rest, current) == Token(current + s, rest)
  {
    ReprOpens(s, rest);
    EscapedIsUndone(s, rest, current);
    var tail := Closed(s, rest);
    assert Peek([34] + tail, 0) == 34;
    TurnGoes(Plain, [34], tail, current, InQuotes, []);
    assert current + [] == current;
  }

  lemma WordByte(b: Byte, tail: seq<Byte>, current: seq<Byte>)
    requires b !in {NUL, SPACE, LF, CR, TAB, DQUOTE, SQUOTE} && NUL !in tail
    ensures NUL !in [b] + tail
    ensures ReadToken(Plain, [b] + tail, current) == ReadToken(Plain, tail, current + [b])
  {
    assert Peek([b] + tail, 0) == b;
    TurnGoes(Plain, [b], tail, current, Plain, [b]);
  }

  lemma {:induction false} GluedWord(w: seq<Byte>, s: seq<Byte>, rest: seq<Byte>, current: seq<Byte>)
    requires IsWord(w) && NUL !in rest && (rest == [] || IsSpace(rest[0]))
    ensures NUL !in w + (Repr(s) + rest)
    ensures ReadToken(Plain, w + (Repr(s) + rest), current) == Token(current + w + s, rest)
    decreases |w|
  {
    var tail := Repr(s) + rest;
    if w == [] {
      QuoteBegins(s, rest, current);
      assert w + tail == tail && current + w == current;
    } else {
      GluedWord(w[1..], s, rest, current + [w[0]]);
      WordByte(w[0], w[1..] + tail, current);
      assert w == [w[0]] + w[1..];
      Assoc([w[0]], w[1..], tail);
      Assoc(current, [w[0]], w[1..]);
    }
  }

  /** Words with blanks in front: the first blank behind a word is one of space, tab,
      line feed and carriage return, the others any of isspace. */
  datatype Blanked = Blanked(blanks: seq<Byte>, word: seq<Byte>)

  predicate BlanksOk(bs: seq<Byte>) {
    forall i :: 0 <= i < |bs| ==> IsSpace(bs[i])
  }

  predicate WordsOk(line: seq<Blanked>) {
    forall i :: 0 <= i < |line| ==>
      && line[i].word != [] && IsWord(line[i].word) && !IsSpace(line[i].word[0]) && BlanksOk(line[i].blanks)
      && (i > 0 ==> line[i].blanks != [] && line[i].blanks[0] in [32, 10, 13, 9])
  }

  function LineOf(line: seq<Blanked>): seq<Byte> {
    if line == [] then [] else line[0].blanks + (line[0].word + LineOf(line[1..]))
  }

  function WordsOf(line: seq<Blanked>): seq<seq<Byte>> {
    if line == [] then [] else [line[0].word] + WordsOf(line[1..])
  }

  lemma {:induction false} BlanksAreSkipped(bs: seq<Byte>, s: seq<Byte>)
    requires BlanksOk(bs)
    ensures SkipBlanks(bs + s) == SkipBlanks(s)
    decreases |bs|
  {
    if bs == [] {
      assert bs + s == s;
    } else {
      assert (bs + s)[0] == bs[0] && (bs + s)[1..] == bs[1..] + s;
      BlanksAreSkipped(bs[1..], s);
    }
  }

  lemma BlankSkipped(s: seq<Byte>)
    requires NUL !in s && s != [] && IsSpace(s[0])
    ensures NUL !in s[1..] && SplitLine(s) == SplitLine(s[1..])
  {
    assert SkipBlanks(s) == SkipBlanks(s[1..]);
  }

  /** What a token loop leaves of the text behind a word. */
  function Behind(rest: seq<Byte>): seq<Byte> {
    if rest == [] then [] else rest[1..]
  }

  predicate EndsWord(rest: seq<Byte>) {
    NUL !in rest && (rest == [] || rest[0] in [32, 10, 13, 9])
  }

  lemma WordIsTaken(w: seq<Byte>, rest: seq<Byte>)
    requires IsWord(w) && EndsWord(rest)
    ensures NUL !in w + rest && ReadToken(Plain, w + rest, []) == Token(w, Behind(rest))
  {
    WordIsRead(w, rest, []);
    assert [] + w == w;
  }

  lemma BehindIsSplit(rest: seq<Byte>)
    requires EndsWord(rest)
    ensures NUL !in Behind(rest) && SplitLine(Behind(rest)) == SplitLine(rest)
  {
    if rest != [] {
      BlankSkipped(rest);
    }
  }

  lemma WordIsFirst(bs: seq<Byte>, t: seq<Byte>)
    requires BlanksOk(bs) && t != [] && !IsSpace(t[0]) && NUL !in t
    ensures NUL !in bs + t && SkipBlanks(bs + t) == t
  {
    BlanksAreSkipped(bs, t);
  }

  lemma FirstWord(bs: seq<Byte>, w: seq<Byte>, rest: seq<Byte>)
    requires BlanksOk(bs) && w != [] && IsWord(w) && !IsSpace(w[0]) && EndsWord(rest)
    ensures NUL !in bs + (w + rest)
    ensures SplitLine(bs + (w + rest)) == Prefixed([w], SplitLine(rest))
  {
    var t := w + rest;
    WordIsTaken(w, rest);
    WordIsFirst(bs, t);
    SplitLineUnfolds(bs + t, t);
    BehindIsSplit(rest);
  }

  /** A line of bare words is split at its blanks, however many there are. */
  lemma {:induction false} WordsAreSplit(line: seq<Blanked>)
    requires WordsOk(line)
    ensures NUL !in LineOf(line) && SplitLine(LineOf(line)) == Some(WordsOf(line))
    decreases |line|
  {
    if line != [] {
      var rest := line[1..];
      assert forall i :: 0 <= i < |rest| ==> rest[i] == line[i + 1];
      WordsAreSplit(rest);
      assert rest != [] ==> LineOf(rest)[0] == rest[0].blanks[0];
      FirstWord(line[0].blanks, line[0].word, LineOf(rest));
    }
  }
}
