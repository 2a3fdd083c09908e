/** The protocol byte by byte: what the parser makes of input written out, without
    reference to the printer. */
module WireLaws {
  import opened Bytes
  import opened Decimal
  import opened Resp
  import opened Machine
  import opened ReplyObjects
  import opened Readers
  import opened ReaderSession

  lemma BytesAre()
    ensures Ascii("+-:$*") == [PLUS, MINUS, COLON, DOLLAR, STAR] && Ascii("\r\n") == CRLF
    ensures Ascii("+-:$*") == [43, 45, 58, 36, 42] && Ascii("\r\n") == [13, 10]
    ensures LLONG_MAX == 9223372036854775807 && ULLONG_MAX == 18446744073709551615 && INT_MAX == 2147483647
  {
  }

  // ----- Lines -----

  lemma TextLine(b: Byte, k: Kind, t: seq<Byte>, x: seq<Byte>, depth: nat)
    requires CrlfFree(t) && KindOf(b) == Some(k) && (k.KStatus? || k.KError?)
    ensures ParseReply([b] + t + [13, 10] + x, depth) == Done(if k.KStatus? then Status(t) else Error(t), x)
  {
    PrintParseText(b, k, t, depth, x);
    assert [b] + t + [13, 10] == [b] + Line(t);
  }

  /** Status and error lines, by their type bytes. */
  lemma TextLines(t: seq<Byte>, x: seq<Byte>, depth: nat)
    requires CrlfFree(t)
    ensures ParseReply([43] + t + [13, 10] + x, depth) == Done(Status(t), x)
    ensures ParseReply([45] + t + [13, 10] + x, depth) == Done(Error(t), x)
  {
    TextLine(43, KStatus, t, x, depth);
    TextLine(45, KError, t, x, depth);
  }

  /** The item behind a type byte and a line. */
  lemma LineItems(k: Kind, b: Byte, line: seq<Byte>, x: seq<Byte>, depth: nat)
    requires CrlfFree(line) && KindOf(b) == Some(k) && !(k.KArray? && depth == MAX_DEPTH)
    ensures ParseReply([b] + line + [13, 10] + x, depth) == ParseTyped(k, Line(line) + x, depth)
    ensures k.KInteger? ==> ReadItem(k, Line(line) + x) == IntegerItem(LongLong(line), x)
    ensures k.KArray? ==> ReadItem(k, Line(line) + x) == ArrayItem(LongLong(line), x)
    ensures k.KStr? ==> ReadItem(k, Line(line) + x) == BulkItem(LongLong(line), x)
  {
    assert [b] + line + [13, 10] + x == [b] + (Line(line) + x);
    ParseHead(b, k, Line(line) + x, depth);
    NewlineAfterText(line, x);
  }

  /** An integer line holds the number its text stands for. */
  lemma IntegerLines(line: seq<Byte>, x: seq<Byte>, depth: nat, v: int)
    requires CrlfFree(line) && LongLong(line) == Num(v)
    ensures ParseReply([58] + line + [13, 10] + x, depth) == Done(Integer(v), x)
  {
    LineItems(KInteger, COLON, line, x, depth);
  }

  // ----- What a line of text denotes as a number -----

  lemma DigitsOnly(ds: seq<Byte>)
    requires AllDigits(ds)
    ensures UpToCr(ds) == ds && DigitPrefix(ds) == ds
  {
    NoCrInText(ds);
    DigitPrefixOfDigits(ds);
  }

  /** A sign in front of text without CR. */
  lemma SignCounts(t: seq<Byte>)
    requires CR !in t
    ensures LongLong([43] + t) == NumberOf(t, 1) && LongLong([45] + t) == NumberOf(t, -1)
    ensures t == [] || (t[0] != 43 && t[0] != 45) ==> LongLong(t) == NumberOf(t, 1)
  {
    NoCrInText(t);
    NoCrInText([43] + t);
    NoCrInText([45] + t);
    assert ([43] + t)[1..] == t && ([45] + t)[1..] == t;
  }

  /** Digits, with or without a sign, stand for their value; no digits stand for zero. */
  lemma SignedDigits(ds: seq<Byte>)
    requires AllDigits(ds) && Value(ds) <= LLONG_MAX
    ensures LongLong(ds) == LongLong([43] + ds) == Num(Value(ds))
    ensures LongLong([45] + ds) == Num(0 - Value(ds))
  {
    assert ds != [] ==> IsDigit(ds[0]);
    assert CR !in ds;
    SignCounts(ds);
    NumberOfDigits(ds);
  }

  lemma NumberOfDigits(ds: seq<Byte>)
    requires AllDigits(ds) && Value(ds) <= LLONG_MAX
    ensures NumberOf(ds, 1) == Num(Value(ds)) && NumberOf(ds, -1) == Num(0 - Value(ds))
  {
    DigitsOnly(ds);
  }

  /** Anything but digits behind the sign makes the number -1. */
  lemma OtherText(ds: seq<Byte>, b: Byte, more: seq<Byte>)
    requires AllDigits(ds) && Value(ds) <= LLONG_MAX && !IsDigit(b) && b != CR && CR !in more
    ensures ds != [] || (b != 43 && b != 45) ==> LongLong(ds + [b] + more) == Num(-1)
    ensures LongLong([43] + (ds + [b] + more)) == LongLong([45] + (ds + [b] + more)) == Num(-1)
  {
    var t := ds + [b] + more;
    assert t[0] == if ds == [] then b else ds[0];
    assert ds != [] ==> IsDigit(ds[0]);
    SignCounts(t);
    DigitsThenOther(ds, b, more);
  }

  lemma {:induction false} DigitsThenOther(ds: seq<Byte>, b: Byte, more: seq<Byte>)
    requires AllDigits(ds) && !IsDigit(b)
    ensures DigitPrefix(ds + [b] + more) == ds
    decreases |ds|
  {
    if ds != [] {
      assert IsDigit(ds[0]);
      assert (ds + [b] + more)[1..] == ds[1..] + [b] + more;
      DigitsThenOther(ds[1..], b, more);
    }
  }

  /** A written number: digits without leading zeros, behind a minus sign if negative. */
  lemma SignedText(v: int)
    ensures v >= 0 ==> AllDigits(Signed(v)) && Value(Signed(v)) == v
    ensures v > 0 ==> Signed(v)[0] != 48
    ensures Signed(0) == Ascii("0")
    ensures v < 0 ==> Signed(v)[0] == 45 && Signed(v)[1..] == Signed(-v)
  {
    if v >= 0 { ValueOfDec(v); }
    if v > 0 { NoLeadingZero(v); }
  }

  lemma KnownNumbers()
    ensures Dec(0) == Ascii("0") && Dec(42) == Ascii("42") && Signed(-907) == Ascii("-907")
  {
    assert Dec(4) == [52] && Dec(9) == [57] && Dec(90) == [57, 48] && Dec(907) == Dec(90) + [55];
  }

  lemma {:induction false} NoLeadingZero(n: nat)
    requires n > 0
    ensures Dec(n)[0] != 48
  {
    if n >= 10 { NoLeadingZero(n / 10); }
  }

  // ----- Nil -----

  /** The null array and the null bulk string, whatever follows them. */
  lemma NullReplies(x: seq<Byte>, depth: nat)
    ensures depth < 8 ==> ParseReply(Ascii("*-1\r\n") + x, depth) == Done(Nil, x)
    ensures ParseReply(Ascii("$-1\r\n") + x, depth) == Done(Nil, x)
  {
    var body := Line(Signed(-1)) + x;
    assert Ascii("*-1\r\n") + x == [STAR] + body;
    assert Ascii("$-1\r\n") + x == [DOLLAR] + body;
    ReadNumber(KArray, -1, x);
    ReadNumber(KStr, -1, x);
    if depth < 8 { ParseHead(STAR, KArray, body, depth); }
    ParseHead(DOLLAR, KStr, body, depth);
  }

  /** The same as the next of several elements of an array. */
  lemma NullElement(x: seq<Byte>, n: nat, depth: nat)
    requires depth < 8
    ensures ParseMany(Ascii("*-1\r\n") + x, n + 1, depth) ==
            match ParseMany(x, n, depth)
            case More => More
            case Fail(fault) => Fail(fault)
            case Done(vs, rest) => Done([Nil] + vs, rest)
  {
    NullReplies(x, depth);
    ParseManyUnfolds(Ascii("*-1\r\n") + x, n + 1, depth);
  }

  /** A negative length and a length that is no number make a nil bulk string. */
  lemma NilBulks(line: seq<Byte>, x: seq<Byte>, depth: nat, v: int)
    requires CrlfFree(line) && LongLong(line) == Num(v) && v < 0
    ensures ParseReply([36] + line + [13, 10] + x, depth) == Done(Nil, x)
  {
    LineItems(KStr, DOLLAR, line, x, depth);
  }

  // ----- Bulk strings and arrays -----

  /** A bulk string ends two bytes behind its payload; these are skipped unread. */
  lemma BulkStrings(t: seq<Byte>, a: Byte, b: Byte, x: seq<Byte>, depth: nat)
    requires |t| <= LLONG_MAX - 2
    ensures ParseReply([36] + Dec(|t|) + [13, 10] + t + [a, b] + x, depth) == Done(Str(t), x)
  {
    var y := t + [a, b] + x;
    assert [36] + Dec(|t|) + [13, 10] + t + [a, b] + x == [36] + Dec(|t|) + [13, 10] + y;
    NumberLine(|t|, y);
    NumberText(|t|);
    LineItems(KStr, DOLLAR, Dec(|t|), y, depth);
    assert y[..|t|] == t && y[|t| + 2..] == x;
  }

  lemma NumberText(n: nat)
    requires n <= LLONG_MAX
    ensures LongLong(Dec(n)) == Num(n)
  {
    ValueOfDec(n);
    SignedDigits(Dec(n));
  }

  /** It is not complete before its second trailing byte has arrived. */
  lemma BulkWaits(t: seq<Byte>, s: seq<Byte>, depth: nat)
    requires |t| <= LLONG_MAX - 2 && |s| < |t| + 2
    ensures ParseReply([36] + Dec(|t|) + [13, 10] + s, depth) == More
  {
    NumberLine(|t|, s);
    NumberText(|t|);
    LineItems(KStr, DOLLAR, Dec(|t|), s, depth);
  }

  /** An array header announces as many elements, one level deeper. */
  lemma Arrays(n: nat, x: seq<Byte>, depth: nat)
    requires depth < 8 && n <= INT_MAX
    ensures ParseReply([42] + Dec(n) + [13, 10] + x, depth) ==
            match ParseMany(x, n, depth + 1)
            case More => More
            case Fail(fault) => Fail(fault)
            case Done(vs, rest) => Done(Array(vs), rest)
  {
    NumberLine(n, x);
    NumberText(n);
    LineItems(KArray, STAR, Dec(n), x, depth);
  }

  // ----- Faults -----

  /** Any other type byte is a fault. */
  lemma OtherTypeBytes(b: Byte, x: seq<Byte>, depth: nat)
    requires b !in [43, 45, 58, 36, 42]
    ensures ParseReply([b] + x, depth) == Fail(BadTypeByte(b))
  {
  }

  /** `inner` behind `n` times `open`. */
  function Nested(open: seq<Byte>, inner: seq<Byte>, n: nat): seq<Byte> {
    if n == 0 then inner else open + Nested(open, inner, n - 1)
  }

  function NestedReply(n: nat): Reply {
    if n == 0 then Integer(1) else Array([NestedReply(n - 1)])
  }

  /** The array around one element. */
  function Around(p: Parse<Reply>): Parse<Reply> {
    match p
    case More => More
    case Fail(fault) => Fail(fault)
    case Done(v, rest) => Done(Array([v]), rest)
  }

  lemma OneElement(y: seq<Byte>, depth: nat)
    requires depth < 8
    ensures ParseReply(Ascii("*1\r\n") + y, depth) == Around(ParseReply(y, depth + 1))
  {
    assert Dec(1) == [49];
    assert Ascii("*1\r\n") + y == [42] + Dec(1) + [13, 10] + y;
    Arrays(1, y, depth);
    ParseManyUnfolds(y, 1, depth + 1);
    var p := ParseReply(y, depth + 1);
    if p.Done? {
      assert ParseMany(p.rest, 0, depth + 1) == Done([], p.rest);
      assert [p.value] + [] == [p.value];
    }
  }

  lemma Innermost(x: seq<Byte>, depth: nat)
    ensures ParseReply(Ascii(":1\r\n") + x, depth) == Done(Integer(1), x)
  {
    assert Dec(1) == [49];
    NumberText(1);
    assert Ascii(":1\r\n") + x == [58] + Dec(1) + [13, 10] + x;
    NumberLine(1, x);
    IntegerLines(Dec(1), x, depth, 1);
  }

  /** What each array around the inner levels makes of them. */
  function Levels(n: nat, depth: nat, x: seq<Byte>): Parse<Reply>
    decreases n
  {
    if n == 0 then Done(Integer(1), x)
    else if depth >= 8 then Fail(TooDeep)
    else Around(Levels(n - 1, depth + 1, x))
  }

  /** In the eyes of `parse`, `open` puts an array around what follows it, up to level
      eight, and `inner` is the integer 1. */
  ghost predicate Nests(parse: (seq<Byte>, nat) -> Parse<Reply>, open: seq<Byte>, inner: seq<Byte>) {
    && (forall y: seq<Byte>, d: nat {:trigger parse(open + y, d)} :: d <= 8 ==>
          parse(open + y, d) == if d < 8 then Around(parse(y, d + 1)) else Fail(TooDeep))
    && (forall x: seq<Byte>, d: nat {:trigger parse(inner + x, d)} :: parse(inner + x, d) == Done(Integer(1), x))
  }

  lemma {:induction false} LevelByLevel(parse: (seq<Byte>, nat) -> Parse<Reply>, open: seq<Byte>, inner: seq<Byte>,
                                        n: nat, depth: nat, x: seq<Byte>)
    requires Nests(parse, open, inner) && depth <= 8
    ensures parse(Nested(open, inner, n) + x, depth) == Levels(n, depth, x)
    decreases n
  {
    if n > 0 {
      var y := Nested(open, inner, n - 1) + x;
      Assoc(open, Nested(open, inner, n - 1), x);
      if depth < 8 { LevelByLevel(parse, open, inner, n - 1, depth + 1, x); }
      assert parse(open + y, depth) == if depth < 8 then Around(parse(y, depth + 1)) else Fail(TooDeep);
    }
  }

  lemma {:induction false} EightFit(n: nat, depth: nat, x: seq<Byte>)
    requires depth <= 8
    ensures Levels(n, depth, x) == if n + depth <= 8 then Done(NestedReply(n), x) else Fail(TooDeep)
    decreases n
  {
    if n > 0 && depth < 8 { EightFit(n - 1, depth + 1, x); }
  }

  lemma RealOnesNest()
    ensures Nests((s: seq<Byte>, d: nat) => ParseReply(s, d), Ascii("*1\r\n"), Ascii(":1\r\n"))
  {
    forall y: seq<Byte>, d: nat | d <= 8
      ensures ParseReply(Ascii("*1\r\n") + y, d) == if d < 8 then Around(ParseReply(y, d + 1)) else Fail(TooDeep)
    {
      assert (Ascii("*1\r\n") + y)[0] == 42;
      if d < 8 { OneElement(y, d); }
    }
    forall x: seq<Byte>, d: nat
      ensures ParseReply(Ascii(":1\r\n") + x, d) == Done(Integer(1), x)
    {
      Innermost(x, d);
    }
  }

  /** Eight array levels are accepted, and not one more. */
  lemma EightLevels(n: nat, x: seq<Byte>)
    ensures ParseReply(Nested(Ascii("*1\r\n"), Ascii(":1\r\n"), n) + x, 0) ==
            if n <= 8 then Done(NestedReply(n), x) else Fail(TooDeep)
  {
    RealOnesNest();
    LevelByLevel((s: seq<Byte>, d: nat) => ParseReply(s, d), Ascii("*1\r\n"), Ascii(":1\r\n"), n, 0, x);
    EightFit(n, 0, x);
  }

  // ----- Incomplete replies -----

  lemma {:induction false} GetIsStable(m: State, x: seq<Byte>)
    requires Machine.Good(m)
    ensures var r := Get(m);
            && (r.replies != [] ==>
                  && r.session.Live?
                  && Get(Append(m, x)) == Result(Live(Append(r.session.m, x)), r.replies))
            && (r.session.Dead? ==> Get(Append(m, x)) == r)
    decreases |m.rest|
  {
    if !Step(m).Stuck? {
      StepIsStable(m, x);
      match Step(m)
      case Failed(_) =>
      case Next(m', out) => if out.None? { GetIsStable(m', x); }
    }
  }

  /** What has been parsed does not depend on what follows. */
  lemma ParseIsStable(s: seq<Byte>, x: seq<Byte>)
    ensures match ParseReply(s, 0)
            case Done(v, rest) => ParseReply(s + x, 0) == Done(v, rest + x)
            case Fail(fault) => ParseReply(s + x, 0) == Fail(fault)
            case More => true
  {
    GetIsStable(Fresh(s), x);
    GetIsResume(Fresh(s));
    GetIsResume(Fresh(s + x));
  }

  /** No reply is emitted and no fault raised before the last byte has arrived. */
  lemma PrefixIsIncomplete(r: Reply, n: nat)
    requires Fits(r, 0) && n < |Print(r)|
    ensures ParseReply(Print(r)[..n], 0) == More
  {
    var s := Print(r);
    assert s[..n] + s[n..] == s;
    ParseIsStable(s[..n], s[n..]);
    PrintParse(r, 0, []);
    assert s + [] == s;
  }

  // ----- Objects -----

  /** What the object at an address is when it denotes a reply. */
  lemma ObjectsAre(objs: seq<Obj>, id: int, t: Reply)
    requires Denotes(objs, id, t)
    ensures 0 <= id < |objs|
    ensures match t
            case Str(s) => objs[id] == StrObj(KStr, s)
            case Status(s) => objs[id] == StrObj(KStatus, s)
            case Error(s) => objs[id] == StrObj(KError, s)
            case Integer(v) => objs[id] == IntObj(v)
            case Nil => objs[id] == NilObj
            case Array(rs) => objs[id].ArrObj? && |objs[id].element| == |rs|
  {
    var hi :| Built(objs, id, hi, t);
    if t.Array? {
      assert BuiltMany(objs, objs[id].element, id + 1, hi, t.element);
    }
  }

  /** Element i of an array object denotes element i of the reply. */
  lemma ElementsAre(objs: seq<Obj>, id: int, rs: seq<Reply>, i: nat)
    requires Denotes(objs, id, Array(rs)) && i < |rs|
    ensures 0 <= id < |objs| && objs[id].ArrObj? && i < |objs[id].element|
    ensures Denotes(objs, objs[id].element[i], rs[i])
  {
    var hi :| Built(objs, id, hi, Array(rs));
    ManyAre(objs, objs[id].element, id + 1, hi, rs, i);
  }

  lemma {:induction false} ManyAre(objs: seq<Obj>, ids: seq<int>, lo: int, hi: int, rs: seq<Reply>, i: nat)
    requires BuiltMany(objs, ids, lo, hi, rs) && i < |rs|
    ensures |ids| == |rs| && Denotes(objs, ids[i], rs[i])
    decreases |rs|
  {
    var n := |rs| - 1;
    if i < n {
      ManyAre(objs, ids[..n], lo, ids[n], rs[..n], i);
    }
  }

  lemma NullArrayAlone()
    ensures ParseAll(Ascii("*-1\r\n")) == Transcript([Nil], None)
  {
    NullReplies([], 0);
    OneReply(Ascii("*-1\r\n"), Nil);
  }

  lemma OneReply(s: seq<Byte>, v: Reply)
    requires ParseReply(s + [], 0) == Done(v, [])
    ensures ParseAll(s) == Transcript([v], None)
  {
    assert s + [] == s;
    assert ParseAll([]) == Transcript([], None);
    assert [v] + [] == [v];
  }

  /** The reader makes a nil object of the null array, however it arrives. */
  method ReadNullArray(ops: seq<Op>) returns (r: Reader, out: seq<int>)
    requires Stream(ops) == Ascii("*-1\r\n")
    ensures r.err == None && |out| == 1 && 0 <= out[0] < |r.objs| && r.objs[out[0]] == NilObj
  {
    r, out := ReadStream(ops);
    NullArrayAlone();
    ObjectsAre(r.objs, out[0], Nil);
  }
}
