/** Quoting and splitting command lines (sds.c): sdscatrepr, sdssplitargs and
    their round trip. */
module Quoting {
  import opened Bytes
  import opened SdsStrings

  const LETTER_X: Byte := 120

  /** isprint and isspace in the C locale. */
  predicate IsPrint(b: Byte) { 32 <= b <= 126 }
  predicate IsSpace(b: Byte) { b == SPACE || 9 <= b <= 13 }

  predicate IsHexDigit(b: Byte) {
    48 <= b <= 57 || 97 <= b <= 102 || 65 <= b <= 70
  }

  function HexValue(b: Byte): (v: int)
    ensures 0 <= v < 16
  {
    if 48 <= b <= 57 then b - 48
    else if 97 <= b <= 102 then b - 87
    else if 65 <= b <= 70 then b - 55
    else 0
  }

  /** The lower-case hexadecimal digit that printf's %02x writes. */
  function HexDigit(n: int): (b: Byte)
    requires 0 <= n < 16
    ensures IsHexDigit(b) && HexValue(b) == n
  {
    if n < 10 then 48 + n else 87 + n
  }

  // ----- Quoting -----

  /** The letter of a one-letter escape, if the byte has one. */
  function EscapeLetter(b: Byte): Option<Byte> {
    if b == BACKSLASH || b == DQUOTE then Some(b)
    else if b == LF then Some(110)
    else if b == CR then Some(114)
    else if b == TAB then Some(116)
    else if b == BEL then Some(97)
    else if b == BS then Some(98)
    else None
  }

  function Escape(b: Byte): seq<Byte> {
    match EscapeLetter(b)
    case Some(l) => [BACKSLASH, l]
    case None =>
      if IsPrint(b) then [b] else [BACKSLASH, LETTER_X, HexDigit(b / 16), HexDigit(b % 16)]
  }

  function Escaped(s: seq<Byte>): seq<Byte> {
    if s == [] then [] else Escape(s[0]) + Escaped(s[1..])
  }

  function Repr(s: seq<Byte>): seq<Byte> {
    [DQUOTE] + Escaped(s) + [DQUOTE]
  }

  /** sdscatrepr. */
  method CatRepr(s: Sds, p: seq<Byte>)
    requires s.Valid()
    modifies s
    ensures s.Valid() && s.Contents() == old(s.Contents()) + Repr(p)
  {
    ghost var whole := s.Contents() + Repr(p);
    s.CatLen([DQUOTE]);
    var i := 0;
    assert p[0..] == p;
    while i < |p|
      invariant 0 <= i <= |p| && s.Valid()
      invariant s.Contents() + (Escaped(p[i..]) + [DQUOTE]) == whole
    {
      ghost var was := s.Contents();
      assert p[i..][1..] == p[i + 1..];
      var e := Escape(p[i]);
      s.CatLen(e);
      Assoc(e, Escaped(p[i + 1..]), [DQUOTE]);
      Assoc(was, e, Escaped(p[i + 1..]) + [DQUOTE]);
      i := i + 1;
    }
    assert Escaped([]) + [DQUOTE] == [DQUOTE];
    s.CatLen([DQUOTE]);
  }

  // ----- Splitting -----

  datatype Mode = Plain | InQuotes | InSingleQuotes

  /** The byte a pointer sees: past the end of the line it is the terminator. */
  function Peek(s: seq<Byte>, i: nat): Byte {
    if i < |s| then s[i] else NUL
  }

  /** What a backslash and a letter stand for inside double quotes. */
  function Unescape(l: Byte): Byte {
    if l == 110 then LF
    else if l == 114 then CR
    else if l == 116 then TAB
    else if l == 98 then BS
    else if l == 97 then BEL
    else l
  }

  /** One turn of the token loop: go on with more of the token, the token is
      complete, or the line is malformed. `used` bytes are consumed. */
  datatype Turn = Go(mode: Mode, add: seq<Byte>, used: nat) | EndToken(used: nat) | Malformed

  function QuotedTurn(s: seq<Byte>): Turn {
    if Peek(s, 0) == BACKSLASH && Peek(s, 1) == LETTER_X && IsHexDigit(Peek(s, 2)) && IsHexDigit(Peek(s, 3)) then
      Go(InQuotes, [HexValue(Peek(s, 2)) * 16 + HexValue(Peek(s, 3))], 4)
    else if Peek(s, 0) == BACKSLASH && Peek(s, 1) != NUL then Go(InQuotes, [Unescape(Peek(s, 1))], 2)
    else if Peek(s, 0) == DQUOTE then
      if Peek(s, 1) != NUL && !IsSpace(Peek(s, 1)) then Malformed else EndToken(1)
    else if Peek(s, 0) == NUL then Malformed
    else Go(InQuotes, [Peek(s, 0)], 1)
  }

  function SingleQuotedTurn(s: seq<Byte>): Turn {
    if Peek(s, 0) == BACKSLASH && Peek(s, 1) == SQUOTE then Go(InSingleQuotes, [SQUOTE], 2)
    else if Peek(s, 0) == SQUOTE then
      if Peek(s, 1) != NUL && !IsSpace(Peek(s, 1)) then Malformed else EndToken(1)
    else if Peek(s, 0) == NUL then Malformed
    else Go(InSingleQuotes, [Peek(s, 0)], 1)
  }

  function PlainTurn(s: seq<Byte>): Turn {
    var c := Peek(s, 0);
    if c == NUL then EndToken(0)
    else if c == SPACE || c == LF || c == CR || c == TAB then EndToken(1)
    else if c == DQUOTE then Go(InQuotes, [], 1)
    else if c == SQUOTE then Go(InSingleQuotes, [], 1)
    else Go(Plain, [c], 1)
  }

  /** A turn stays on the line and makes progress. */
  predicate Consumes(t: Turn, s: seq<Byte>) {
    && (t.Go? ==> 0 < t.used <= |s|)
    && (t.EndToken? ==> t.used <= |s| && (s != [] ==> t.used > 0))
  }

  function TurnOf(mode: Mode, s: seq<Byte>): (t: Turn)
    requires NUL !in s
    ensures Consumes(t, s)
  {
    match mode
    case Plain => PlainTurn(s)
    case InQuotes => QuotedTurn(s)
    case InSingleQuotes => SingleQuotedTurn(s)
  }

  datatype TokenResult = Token(text: seq<Byte>, rest: seq<Byte>) | BadToken

  function ReadToken(mode: Mode, s: seq<Byte>, current: seq<Byte>): (r: TokenResult)
    requires NUL !in s
    ensures r.Token? ==> |r.rest| <= |s| && (s != [] ==> |r.rest| < |s|) && NUL !in r.rest
    decreases |s|, 1
  {
    ReadAfter(TurnOf(mode, s), s, current)
  }

  function ReadAfter(turn: Turn, s: seq<Byte>, current: seq<Byte>): (r: TokenResult)
    requires NUL !in s && Consumes(turn, s)
    ensures r.Token? ==> |r.rest| <= |s| && (s != [] ==> |r.rest| < |s|) && NUL !in r.rest
    decreases |s|, 0
  {
    match turn
    case Malformed => BadToken
    case EndToken(used) => Token(current, s[used..])
    case Go(mode', add, used) => ReadToken(mode', s[used..], current + add)
  }

  function SkipBlanks(s: seq<Byte>): (t: seq<Byte>)
    ensures |t| <= |s| && t == s[|s| - |t|..]
  {
    if s != [] && IsSpace(s[0]) then SkipBlanks(s[1..]) else s
  }

  /** The arguments of a line, or None for unbalanced or badly closed quotes. */
  function SplitLine(s: seq<Byte>): Option<seq<seq<Byte>>>
    requires NUL !in s
    decreases |s|
  {
    var t := SkipBlanks(s);
    if t == [] then Some([])
    else
      match ReadToken(Plain, t, [])
      case BadToken => None
      case Token(text, rest) =>
        match SplitLine(rest)
        case None => None
        case Some(more) => Some([text] + more)
  }

  lemma NoNulBehind(line: seq<Byte>, p: nat)
    requires NUL !in line && p <= |line|
    ensures NUL !in line[p..]
  {
  }

  /** Where the token loop stands: in the token, or done with it. */
  datatype Cursor = In(mode: Mode, current: seq<Byte>, p: nat) | Out(current: seq<Byte>, p: nat) | Failed

  ghost predicate OnLine(c: Cursor, line: seq<Byte>) {
    !c.Failed? ==> c.p <= |line| && NUL !in line[c.p..]
  }

  /** What the loop will have read from there. */
  ghost function Outcome(c: Cursor, line: seq<Byte>): TokenResult
    requires OnLine(c, line)
  {
    match c
    case In(mode, current, p) => ReadToken(mode, line[p..], current)
    case Out(current, p) => Token(current, line[p..])
    case Failed => BadToken
  }

  function Move(c: Cursor, turn: Turn): Cursor
    requires c.In?
  {
    match turn
    case Malformed => Failed
    case EndToken(used) => Out(c.current, c.p + used)
    case Go(mode, add, used) => In(mode, c.current + add, c.p + used)
  }

  /** A turn leads where the loop then stands. */
  lemma MoveKeepsOutcome(line: seq<Byte>, c: Cursor, turn: Turn)
    requires NUL !in line && c.In? && OnLine(c, line) && Consumes(turn, line[c.p..])
    ensures OnLine(Move(c, turn), line)
    ensures Outcome(Move(c, turn), line) == ReadAfter(turn, line[c.p..], c.current)
    ensures Move(c, turn).In? ==> c.p < Move(c, turn).p
  {
    if !turn.Malformed? {
      SliceOfSlice(line, c.p, |line|, turn.used, |line| - c.p);
      NoNulBehind(line, c.p + turn.used);
    }
  }

  /** The token loop of sdssplitargs. */
  method TakeToken(line: seq<Byte>, p0: nat) returns (c: Cursor)
    requires NUL !in line && p0 < |line| && NUL !in line[p0..]
    ensures !c.In? && OnLine(c, line) && Outcome(c, line) == ReadToken(Plain, line[p0..], [])
  {
    c := In(Plain, [], p0);
    ghost var whole := Outcome(c, line);
    while c.In?
      invariant OnLine(c, line) && Outcome(c, line) == whole
      decreases c.In?, if c.In? then |line| - c.p else 0
    {
      var turn := TurnOf(c.mode, line[c.p..]);
      MoveKeepsOutcome(line, c, turn);
      c := Move(c, turn);
    }
  }

  function Prefixed(args: seq<seq<Byte>>, r: Option<seq<seq<Byte>>>): Option<seq<seq<Byte>>> {
    if r.None? then None else Some(args + r.value)
  }

  /** The blank-skipping loop of sdssplitargs. */
  method SkipFrom(line: seq<Byte>, p0: nat) returns (p: nat)
    requires p0 <= |line|
    ensures p0 <= p <= |line| && line[p..] == SkipBlanks(line[p0..])
  {
    p := p0;
    while p < |line| && IsSpace(line[p])
      invariant p0 <= p <= |line| && SkipBlanks(line[p..]) == SkipBlanks(line[p0..])
    {
      assert line[p..][1..] == line[p + 1..];
      p := p + 1;
    }
  }

  lemma SplitLineUnfolds(s: seq<Byte>, t: seq<Byte>)
    requires NUL !in s && t == SkipBlanks(s) && t != [] && NUL !in t
    ensures SplitLine(s) ==
            match ReadToken(Plain, t, [])
            case BadToken => None
            case Token(text, rest) => Prefixed([text], SplitLine(rest))
  {
  }

  lemma PrefixedTwice(a: seq<seq<Byte>>, b: seq<seq<Byte>>, r: Option<seq<seq<Byte>>>)
    ensures Prefixed(a, Prefixed(b, r)) == Prefixed(a + b, r)
  {
    if r.Some? {
      Assoc(a, b, r.value);
    }
  }

  lemma NextToken(s: seq<Byte>, t: seq<Byte>, args: seq<seq<Byte>>)
    requires NUL !in s && t == SkipBlanks(s) && t != [] && NUL !in t
    ensures match ReadToken(Plain, t, [])
            case BadToken => SplitLine(s) == None
            case Token(text, rest) => Prefixed(args, SplitLine(s)) == Prefixed(args + [text], SplitLine(rest))
  {
    SplitLineUnfolds(s, t);
    match ReadToken(Plain, t, [])
    case BadToken =>
    case Token(text, rest) => PrefixedTwice(args, [text], SplitLine(rest));
  }

  /** sdssplitargs. */
  method SplitArgs(line: seq<Byte>) returns (vector: Option<seq<seq<Byte>>>)
    requires NUL !in line
    ensures vector == SplitLine(line)
  {
    var p := 0;
    var args := [];
    ghost var whole := SplitLine(line);
    assert line[0..] == line;
    assert whole.Some? ==> [] + whole.value == whole.value;
    while true
      invariant 0 <= p <= |line|
      invariant whole == Prefixed(args, SplitLine(line[p..]))
      decreases |line| - p
    {
      ghost var s := line[p..];
      p := SkipFrom(line, p);
      if p == |line| {
        assert args + [] == args;
        return Some(args);
      }
      NoNulBehind(line, p);
      NextToken(s, line[p..], args);
      var c := TakeToken(line, p);
      if c.Failed? { return None; }
      args, p := args + [c.current], c.p;
    }
  }

  // ----- Round trip -----

  lemma EscapeIsUndone(b: Byte, rest: seq<Byte>)
    requires NUL !in rest
    ensures NUL !in Escape(b)
    ensures QuotedTurn(Escape(b) + rest) == Go(InQuotes, [b], |Escape(b)|)
  {
    var s := Escape(b) + rest;
    assert forall i :: 0 <= i < |Escape(b)| ==> Peek(s, i) == Escape(b)[i];
    if EscapeLetter(b).None? && !IsPrint(b) {
      assert b == b / 16 * 16 + b % 16;
      assert Escape(b)[2] == HexDigit(b / 16) && Escape(b)[3] == HexDigit(b % 16);
    }
  }

  lemma {:induction false} EscapedHasNoNul(s: seq<Byte>)
    ensures NUL !in Escaped(s)
  {
    if s != [] {
      EscapedHasNoNul(s[1..]);
      EscapeIsUndone(s[0], []);
    }
  }

  lemma TurnGoes(mode: Mode, front: seq<Byte>, tail: seq<Byte>, current: seq<Byte>, mode': Mode, add: seq<Byte>)
    requires NUL !in front + tail && NUL !in tail
    requires TurnOf(mode, front + tail) == Go(mode', add, |front|)
    ensures ReadToken(mode, front + tail, current) == ReadToken(mode', tail, current + add)
  {
    assert (front + tail)[|front|..] == tail;
  }

  lemma ClosingQuote(rest: seq<Byte>, current: seq<Byte>)
    requires NUL !in rest && (rest == [] || IsSpace(rest[0]))
    ensures ReadToken(InQuotes, [DQUOTE] + rest, current) == Token(current, rest)
  {
    assert ([DQUOTE] + rest)[1..] == rest;
  }

  /** What follows the opening quote of a quoted string. */
  function Closed(s: seq<Byte>, rest: seq<Byte>): seq<Byte> {
    Escaped(s) + ([DQUOTE] + rest)
  }

  lemma ClosedUnfolds(s: seq<Byte>, rest: seq<Byte>)
    requires s != []
    ensures Closed(s, rest) == Escape(s[0]) + Closed(s[1..], rest)
  {
  }

  lemma ClosedHasNoNul(s: seq<Byte>, rest: seq<Byte>)
    requires NUL !in rest
    ensures NUL !in Closed(s, rest)
  {
    EscapedHasNoNul(s);
  }

  lemma {:induction false} EscapedIsUndone(s: seq<Byte>, rest: seq<Byte>, current: seq<Byte>)
    requires NUL !in rest && (rest == [] || IsSpace(rest[0]))
    ensures NUL !in Closed(s, rest)
    ensures ReadToken(InQuotes, Closed(s, rest), current) == Token(current + s, rest)
    decreases |s|
  {
    ClosedHasNoNul(s, rest);
    if s == [] {
      assert Closed(s, rest) == [DQUOTE] + rest;
      ClosingQuote(rest, current);
      assert current + [] == current;
    } else {
      var tail := Closed(s[1..], rest);
      EscapedIsUndone(s[1..], rest, current + [s[0]]);
      ClosedUnfolds(s, rest);
      EscapeIsUndone(s[0], tail);
      TurnGoes(InQuotes, Escape(s[0]), tail, current, InQuotes, [s[0]]);
      assert [s[0]] + s[1..] == s;
      Assoc(current, [s[0]], s[1..]);
    }
  }

  lemma ReprIsUndone(s: seq<Byte>, rest: seq<Byte>)
    requires NUL !in rest && (rest == [] || IsSpace(rest[0]))
    ensures NUL !in Repr(s) + rest
    ensures ReadToken(Plain, Repr(s) + rest, []) == Token(s, rest)
  {
    EscapedIsUndone(s, rest, []);
    ReprOpens(s, rest);
    OpeningQuote(Closed(s, rest));
    assert [] + s == s;
  }

  lemma ReprOpens(s: seq<Byte>, rest: seq<Byte>)
    ensures Repr(s) + rest == [DQUOTE] + Closed(s, rest)
  {
    Assoc([DQUOTE], Escaped(s), [DQUOTE]);
    Assoc([DQUOTE], Escaped(s) + [DQUOTE], rest);
    Assoc(Escaped(s), [DQUOTE], rest);
  }

  lemma OpeningQuote(tail: seq<Byte>)
    requires NUL !in tail
    ensures NUL !in [DQUOTE] + tail
    ensures ReadToken(Plain, [DQUOTE] + tail, []) == ReadToken(InQuotes, tail, [])
  {
    assert Peek([DQUOTE] + tail, 0) == DQUOTE;
    TakeDrop([DQUOTE], tail);
    var empty: seq<Byte> := [];
    assert empty + [] == empty;
  }

  /** Quoted arguments joined with spaces. */
  function QuotedLine(args: seq<seq<Byte>>): seq<Byte> {
    if args == [] then [] else Repr(args[0]) + Following(QuotedLine(args[1..]))
  }

  /** A line behind an earlier argument. */
  function Following(line: seq<Byte>): seq<Byte> {
    if line == [] then [] else [SPACE] + line
  }

  lemma FirstArgument(arg: seq<Byte>, rest: seq<Byte>)
    requires NUL !in rest && (rest == [] || IsSpace(rest[0]))
    ensures NUL !in Repr(arg) + rest
    ensures SplitLine(Repr(arg) + rest) == Prefixed([arg], SplitLine(rest))
  {
    ReprIsUndone(arg, rest);
    assert SkipBlanks(Repr(arg) + rest) == Repr(arg) + rest;
  }

  /** Every list of byte strings survives quoting, joining and splitting, and the
      error exit is never taken. */
  lemma {:induction false} QuotingRoundTrip(args: seq<seq<Byte>>)
    ensures NUL !in QuotedLine(args)
    ensures SplitLine(QuotedLine(args)) == Some(args)
    decreases |args|
  {
    if args != [] {
      QuotingRoundTrip(args[1..]);
      RoundTripStep(args, QuotedLine(args[1..]));
    }
  }

  lemma FollowingSplits(line: seq<Byte>)
    requires NUL !in line
    ensures NUL !in Following(line) && SplitLine(Following(line)) == SplitLine(line)
  {
    if line != [] {
      LeadingSpace(line);
    }
  }

  lemma FirstAndRest(args: seq<seq<Byte>>)
    requires args != []
    ensures Prefixed([args[0]], Some(args[1..])) == Some(args)
  {
    assert [args[0]] + args[1..] == args;
  }

  lemma RoundTripStep(args: seq<seq<Byte>>, line: seq<Byte>)
    requires args != [] && NUL !in line && SplitLine(line) == Some(args[1..])
    ensures NUL !in Repr(args[0]) + Following(line)
    ensures SplitLine(Repr(args[0]) + Following(line)) == Some(args)
  {
    FollowingSplits(line);
    FirstArgument(args[0], Following(line));
    FirstAndRest(args);
  }

  lemma LeadingSpace(s: seq<Byte>)
    requires NUL !in s
    ensures SplitLine([SPACE] + s) == SplitLine(s)
  {
    assert ([SPACE] + s)[1..] == s;
    assert SkipBlanks([SPACE] + s) == SkipBlanks(s);
  }

  // ----- The other two spellings of an argument -----

  /** A bare word: no blank, quote or terminator in it. */
  predicate IsWord(w: seq<Byte>) {
    forall i :: 0 <= i < |w| ==> w[i] !in {NUL, SPACE, LF, CR, TAB, DQUOTE, SQUOTE}
  }

  /** Bare words are read as they stand, up to the blank that ends them. */
  lemma {:induction false} WordIsRead(w: seq<Byte>, rest: seq<Byte>, current: seq<Byte>)
    requires IsWord(w) && NUL !in w + rest && NUL !in rest && (rest == [] || rest[0] in {SPACE, LF, CR, TAB})
    ensures ReadToken(Plain, w + rest, current) == Token(current + w, if rest == [] then [] else rest[1..])
    decreases |w|
  {
    if w == [] {
      assert w + rest == rest && current + [] == current;
      assert rest == [] ==> rest[0..] == [];
    } else {
      var tail := w[1..] + rest;
      assert w + rest == [w[0]] + tail;
      WordIsRead(w[1..], rest, current + [w[0]]);
      TurnGoes(Plain, [w[0]], tail, current, Plain, [w[0]]);
      assert current + [w[0]] + w[1..] == current + w;
    }
  }

  /** Single quotes know one escape, the quote itself. */
  function SingleEscape(b: Byte): seq<Byte> {
    if b == SQUOTE then [BACKSLASH, SQUOTE] else [b]
  }

  function SingleClosed(s: seq<Byte>, rest: seq<Byte>): seq<Byte> {
    if s == [] then [SQUOTE] + rest else SingleEscape(s[0]) + SingleClosed(s[1..], rest)
  }

  predicate EndsInBackslash(s: seq<Byte>) {
    s != [] && s[|s| - 1] == BACKSLASH
  }

  lemma {:induction false} SingleClosedHasNoNul(s: seq<Byte>, rest: seq<Byte>)
    requires NUL !in s && NUL !in rest
    ensures NUL !in SingleClosed(s, rest)
  {
    if s != [] {
      SingleClosedHasNoNul(s[1..], rest);
    }
  }

  lemma SingleTurn(s: seq<Byte>, rest: seq<Byte>)
    requires s != [] && NUL !in s && NUL !in rest && s != [BACKSLASH]
    ensures SingleQuotedTurn(SingleClosed(s, rest)) == Go(InSingleQuotes, [s[0]], |SingleEscape(s[0])|)
  {
    var line, tail := SingleClosed(s, rest), SingleClosed(s[1..], rest);
    assert line == SingleEscape(s[0]) + tail;
    if s[0] != SQUOTE {
      assert line[0] == s[0] && Peek(line, 1) == Peek(tail, 0);
      if s[0] == BACKSLASH {
        assert tail == SingleEscape(s[1]) + SingleClosed(s[1..][1..], rest);
      }
    }
  }

  lemma SingleStep(s: seq<Byte>, rest: seq<Byte>, current: seq<Byte>)
    requires s != [] && NUL !in s && NUL !in rest && s != [BACKSLASH]
    requires NUL !in SingleClosed(s, rest) && NUL !in SingleClosed(s[1..], rest)
    ensures ReadToken(InSingleQuotes, SingleClosed(s, rest), current) ==
            ReadToken(InSingleQuotes, SingleClosed(s[1..], rest), current + [s[0]])
  {
    SingleTurn(s, rest);
    TurnGoes(InSingleQuotes, SingleEscape(s[0]), SingleClosed(s[1..], rest), current, InSingleQuotes, [s[0]]);
  }

  lemma SingleEnd(rest: seq<Byte>, current: seq<Byte>)
    requires NUL !in rest && (rest == [] || IsSpace(rest[0]))
    ensures ReadToken(InSingleQuotes, [SQUOTE] + rest, current) == Token(current, rest)
  {
    TakeDrop([SQUOTE], rest);
    assert Peek([SQUOTE] + rest, 0) == SQUOTE && Peek([SQUOTE] + rest, 1) == Peek(rest, 0);
  }

  /** A backslash before the closing quote is taken as escaping it. */
  lemma SingleStuck(rest: seq<Byte>, current: seq<Byte>, text: seq<Byte>)
    requires NUL !in rest && NUL !in [BACKSLASH, SQUOTE] + rest
    ensures ReadToken(InSingleQuotes, [BACKSLASH, SQUOTE] + rest, current) != Token(text, rest)
  {
    var line := [BACKSLASH, SQUOTE] + rest;
    assert Peek(line, 0) == BACKSLASH && Peek(line, 1) == SQUOTE;
    TurnGoes(InSingleQuotes, [BACKSLASH, SQUOTE], rest, current, InSingleQuotes, [SQUOTE]);
  }

  /** A single-quoted string comes back exactly when it does not end in a backslash,
      which the reader would take as escaping the closing quote. */
  lemma {:induction false} SingleQuotesUndoneIff(s: seq<Byte>, rest: seq<Byte>, current: seq<Byte>)
    requires NUL !in s && NUL !in rest && (rest == [] || IsSpace(rest[0]))
    ensures NUL !in SingleClosed(s, rest)
    ensures ReadToken(InSingleQuotes, SingleClosed(s, rest), current) == Token(current + s, rest)
            <==> !EndsInBackslash(s)
    decreases |s|
  {
    SingleClosedHasNoNul(s, rest);
    if s == [] {
      SingleEnd(rest, current);
      assert current + [] == current;
    } else if s == [BACKSLASH] {
      assert SingleClosed(s[1..], rest) == [SQUOTE] + rest;
      assert SingleClosed(s, rest) == [BACKSLASH, SQUOTE] + rest;
      SingleStuck(rest, current, current + s);
    } else {
      SingleClosedHasNoNul(s[1..], rest);
      SingleStep(s, rest, current);
      SingleQuotesUndoneIff(s[1..], rest, current + [s[0]]);
      assert [s[0]] + s[1..] == s;
      Assoc(current, [s[0]], s[1..]);
    }
  }
}
