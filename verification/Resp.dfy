/** The Redis serialization protocol (RESP2) as a recursive-descent parser on
    values, together with its printer and their round trip. */
module Resp {
  import opened Bytes
  import opened Decimal

  /** A complete reply: what a finished tree of redisReply objects stands for. */
  datatype Reply =
    | Str(text: seq<Byte>)
    | Status(text: seq<Byte>)
    | Error(text: seq<Byte>)
    | Integer(value: int)
    | Nil
    | Array(element: seq<Reply>)

  /** The type of an item, decided by its first byte. */
  datatype Kind = KStr | KStatus | KError | KInteger | KArray

  /** Why a reader gives up. `OutOfModel` marks header numbers on which the C code
      overflows a signed integer or truncates an element count. */
  datatype Fault = BadTypeByte(b: Byte) | TooDeep | OutOfModel

  datatype Parse<+T> = Done(value: T, rest: seq<Byte>) | More | Fail(fault: Fault)

  /** The deepest level at which an array may start is MAX_DEPTH - 1. */
  const MAX_DEPTH: nat := 8

  function KindOf(b: Byte): Option<Kind> {
    if b == MINUS then Some(KError)
    else if b == PLUS then Some(KStatus)
    else if b == COLON then Some(KInteger)
    else if b == DOLLAR then Some(KStr)
    else if b == STAR then Some(KArray)
    else None
  }

  predicate CrlfAt(s: seq<Byte>, i: int) {
    0 <= i && i + 1 < |s| && s[i] == CR && s[i + 1] == LF
  }

  /** The position of the first CR LF pair. */
  function Newline(s: seq<Byte>): (r: Option<nat>)
    ensures r.Some? ==> CrlfAt(s, r.value) && forall j :: 0 <= j < r.value ==> !CrlfAt(s, j)
    ensures r.None? ==> forall j :: !CrlfAt(s, j)
  {
    if |s| < 2 then None
    else if CrlfAt(s, 0) then Some(0)
    else
      var r := Newline(s[1..]);
      assert forall j :: j > 0 ==> (CrlfAt(s, j) <==> CrlfAt(s[1..], j - 1));
      if r.Some? then Some(r.value + 1) else None
  }

  lemma NewlineIs(s: seq<Byte>, i: nat)
    requires CrlfAt(s, i) && forall j :: 0 <= j < i ==> !CrlfAt(s, j)
    ensures Newline(s) == Some(i)
  {
  }

  // ----- One item -----

  /** One typed item after its type byte: a finished value, the header of a
      non-empty array, not enough bytes yet, or a fault. */
  datatype Item =
    | Leaf(value: Reply, rest: seq<Byte>)
    | Open(n: nat, rest: seq<Byte>)
    | Wait
    | Bad(fault: Fault)

  function IntegerItem(num: Number, rest: seq<Byte>): Item {
    match num
    case Overflow => Bad(OutOfModel)
    case Num(v) => Leaf(Integer(v), rest)
  }

  function LineItem(k: Kind, line: seq<Byte>, rest: seq<Byte>): Item
    requires k in {KStatus, KError, KInteger}
  {
    match k
    case KStatus => Leaf(Status(line), rest)
    case KError => Leaf(Error(line), rest)
    case KInteger => IntegerItem(LongLong(line), rest)
  }

  /** Any negative length, including the -1 of an unreadable one, is the nil object. */
  function BulkItem(num: Number, rest: seq<Byte>): Item {
    match num
    case Overflow => Bad(OutOfModel)
    case Num(v) =>
      if v < 0 then Leaf(Nil, rest)
      else if v > LLONG_MAX - 2 then Bad(OutOfModel)
      else if v + 2 <= |rest| then Leaf(Str(rest[..v]), rest[v + 2..])
      else Wait
  }

  function ArrayItem(num: Number, rest: seq<Byte>): Item {
    match num
    case Overflow => Bad(OutOfModel)
    case Num(v) =>
      if v == -1 then Leaf(Nil, rest)
      else if v < -1 || v > INT_MAX then Bad(OutOfModel)
      else if v == 0 then Leaf(Array([]), rest)
      else Open(v, rest)
  }

  function ReadItem(k: Kind, s: seq<Byte>): (r: Item)
    ensures r.Leaf? || r.Open? ==> |r.rest| < |s|
    ensures r.Open? ==> k.KArray? && r.n > 0
  {
    match Newline(s)
    case None => Wait
    case Some(i) =>
      var line, rest := s[..i], s[i + 2..];
      match k
      case KStr => BulkItem(LongLong(line), rest)
      case KArray => ArrayItem(LongLong(line), rest)
      case _ => LineItem(k, line, rest)
  }

  // ----- The recursive parser -----

  /** One reply starting at nesting level `depth`. */
  function ParseReply(s: seq<Byte>, depth: nat): (r: Parse<Reply>)
    ensures r.Done? ==> |r.rest| < |s|
    decreases |s|, 1
  {
    if s == [] then More
    else
      match KindOf(s[0])
      case None => Fail(BadTypeByte(s[0]))
      case Some(k) =>
        if k.KArray? && depth == MAX_DEPTH then Fail(TooDeep)
        else ParseTyped(k, s[1..], depth)
  }

  function ParseTyped(k: Kind, s: seq<Byte>, depth: nat): (r: Parse<Reply>)
    ensures r.Done? ==> |r.rest| <= |s|
    decreases |s|, 0
  {
    match ReadItem(k, s)
    case Wait => More
    case Bad(fault) => Fail(fault)
    case Leaf(v, rest) => Done(v, rest)
    case Open(n, rest) =>
      match ParseMany(rest, n, depth + 1)
      case Done(vs, rest') => Done(Array(vs), rest')
      case More => More
      case Fail(fault) => Fail(fault)
  }

  function ParseMany(s: seq<Byte>, n: nat, depth: nat): (r: Parse<seq<Reply>>)
    ensures r.Done? ==> |r.rest| <= |s| && |r.value| == n
    decreases |s|, 2, n
  {
    if n == 0 then Done([], s)
    else
      match ParseReply(s, depth)
      case More => More
      case Fail(fault) => Fail(fault)
      case Done(v, rest) =>
        match ParseMany(rest, n - 1, depth)
        case More => More
        case Fail(fault) => Fail(fault)
        case Done(vs, rest') => Done([v] + vs, rest')
  }

  /** All the replies of a whole stream, and how the stream ends: in the middle
      of a reply (or exactly after one), or with a fault. */
  datatype Transcript = Transcript(replies: seq<Reply>, fault: Option<Fault>)

  function ParseAll(s: seq<Byte>): Transcript
    decreases |s|
  {
    match ParseReply(s, 0)
    case More => Transcript([], None)
    case Fail(fault) => Transcript([], Some(fault))
    case Done(v, rest) =>
      var t := ParseAll(rest);
      Transcript([v] + t.replies, t.fault)
  }

  // ----- The printer and the round trip -----

  function Line(text: seq<Byte>): seq<Byte> {
    text + CRLF
  }

  function Print(r: Reply): (s: seq<Byte>)
    ensures s != []
  {
    match r
    case Status(t) => [PLUS] + Line(t)
    case Error(t) => [MINUS] + Line(t)
    case Integer(v) => [COLON] + Line(Signed(v))
    case Nil => [DOLLAR] + Line(Signed(-1))
    case Str(t) => [DOLLAR] + Line(Dec(|t|)) + t + CRLF
    case Array(rs) => [STAR] + Line(Dec(|rs|)) + PrintMany(rs)
  }

  function PrintMany(rs: seq<Reply>): seq<Byte> {
    if rs == [] then [] else Print(rs[0]) + PrintMany(rs[1..])
  }

  ghost predicate CrlfFree(t: seq<Byte>) {
    forall j :: !CrlfAt(t, j)
  }

  /** The replies that fit on the wire when their root stands at level `depth`. */
  ghost predicate Fits(r: Reply, depth: nat)
    decreases r
  {
    match r
    case Status(t) => CrlfFree(t)
    case Error(t) => CrlfFree(t)
    case Integer(v) => -LLONG_MAX <= v <= LLONG_MAX
    case Nil => true
    case Str(t) => |t| <= LLONG_MAX - 2
    case Array(rs) =>
      && (depth < MAX_DEPTH)
      && |rs| <= INT_MAX
      && forall i :: 0 <= i < |rs| ==> Fits(rs[i], depth + 1)
  }

  lemma NewlineAfterText(t: seq<Byte>, x: seq<Byte>)
    requires CrlfFree(t)
    ensures Newline(Line(t) + x) == Some(|t|)
    ensures (Line(t) + x)[..|t|] == t && (Line(t) + x)[|t| + 2..] == x
  {
    var s := Line(t) + x;
    assert CrlfAt(s, |t|);
    forall j | 0 <= j < |t|
      ensures !CrlfAt(s, j)
    {
      assert !CrlfAt(t, j);
      assert s[j] == t[j];
      assert j + 1 < |t| ==> s[j + 1] == t[j + 1];
    }
    NewlineIs(s, |t|);
  }

  lemma NumberLine(v: int, x: seq<Byte>)
    requires -LLONG_MAX <= v <= LLONG_MAX
    ensures CrlfFree(Signed(v))
    ensures Newline(Line(Signed(v)) + x) == Some(|Signed(v)|)
    ensures (Line(Signed(v)) + x)[|Signed(v)| + 2..] == x
    ensures LongLong((Line(Signed(v)) + x)[..|Signed(v)|]) == Num(v)
  {
    NewlineAfterText(Signed(v), x);
    NumberRoundTrip(v, []);
    LongLongStopsAtCr(Signed(v), []);
  }

  lemma ReadText(k: Kind, t: seq<Byte>, x: seq<Byte>)
    requires CrlfFree(t) && (k.KStatus? || k.KError?)
    ensures ReadItem(k, Line(t) + x) == LineItem(k, t, x)
  {
    NewlineAfterText(t, x);
  }

  lemma ReadNumber(k: Kind, v: int, x: seq<Byte>)
    requires -LLONG_MAX <= v <= LLONG_MAX
    ensures k.KInteger? ==> ReadItem(k, Line(Signed(v)) + x) == Leaf(Integer(v), x)
    ensures k.KArray? && 0 < v <= INT_MAX ==> ReadItem(k, Line(Signed(v)) + x) == Open(v, x)
    ensures k.KArray? && v == 0 ==> ReadItem(k, Line(Signed(v)) + x) == Leaf(Array([]), x)
    ensures k.KArray? && v == -1 ==> ReadItem(k, Line(Signed(v)) + x) == Leaf(Nil, x)
    ensures k.KStr? && v < 0 ==> ReadItem(k, Line(Signed(v)) + x) == Leaf(Nil, x)
  {
    NumberLine(v, x);
  }

  lemma ReadBulk(t: seq<Byte>, x: seq<Byte>)
    requires |t| <= LLONG_MAX - 2
    ensures ReadItem(KStr, Line(Dec(|t|)) + (t + CRLF + x)) == Leaf(Str(t), x)
  {
    var y := t + CRLF + x;
    NumberLine(|t|, y);
    TakeDrop(t + CRLF, x);
    Assoc(t, CRLF, x);
    TakeDrop(t, CRLF + x);
  }

  lemma ParseHead(b: Byte, k: Kind, body: seq<Byte>, depth: nat)
    requires KindOf(b) == Some(k)
    requires !(k.KArray? && depth == MAX_DEPTH)
    ensures ParseReply([b] + body, depth) == ParseTyped(k, body, depth)
  {
    assert ([b] + body)[1..] == body;
  }

  lemma PrintParseText(b: Byte, k: Kind, t: seq<Byte>, depth: nat, x: seq<Byte>)
    requires CrlfFree(t) && KindOf(b) == Some(k) && (k.KStatus? || k.KError?)
    ensures ParseReply([b] + Line(t) + x, depth) == Done(if k.KStatus? then Status(t) else Error(t), x)
  {
    Assoc([b], Line(t), x);
    ParseHead(b, k, Line(t) + x, depth);
    ReadText(k, t, x);
  }

  lemma PrintParseNumber(b: Byte, k: Kind, v: int, depth: nat, x: seq<Byte>)
    requires -LLONG_MAX <= v <= LLONG_MAX && KindOf(b) == Some(k)
    ensures k.KInteger? ==> ParseReply([b] + Line(Signed(v)) + x, depth) == Done(Integer(v), x)
    ensures k.KStr? && v < 0 ==> ParseReply([b] + Line(Signed(v)) + x, depth) == Done(Nil, x)
  {
    Assoc([b], Line(Signed(v)), x);
    if !k.KArray? {
      ParseHead(b, k, Line(Signed(v)) + x, depth);
      ReadNumber(k, v, x);
    }
  }

  lemma PrintParseBulk(t: seq<Byte>, depth: nat, x: seq<Byte>)
    requires |t| <= LLONG_MAX - 2
    ensures ParseReply(Print(Str(t)) + x, depth) == Done(Str(t), x)
  {
    var head := Line(Dec(|t|));
    assert Print(Str(t)) + x == [DOLLAR] + (head + (t + CRLF + x));
    ParseHead(DOLLAR, KStr, head + (t + CRLF + x), depth);
    ReadBulk(t, x);
  }

  lemma PrintParseLeaf(r: Reply, depth: nat, x: seq<Byte>)
    requires Fits(r, depth) && !r.Array?
    ensures ParseReply(Print(r) + x, depth) == Done(r, x)
  {
    match r {
      case Status(t) => PrintParseText(PLUS, KStatus, t, depth, x);
      case Error(t) => PrintParseText(MINUS, KError, t, depth, x);
      case Integer(v) => PrintParseNumber(COLON, KInteger, v, depth, x);
      case Nil => PrintParseNumber(DOLLAR, KStr, -1, depth, x);
      case Str(t) => PrintParseBulk(t, depth, x);
    }
  }

  /** Printing then parsing gives the reply back and leaves what follows alone. */
  lemma {:induction false} PrintParse(r: Reply, depth: nat, x: seq<Byte>)
    requires Fits(r, depth)
    ensures ParseReply(Print(r) + x, depth) == Done(r, x)
    decreases r, 1
  {
    if r.Array? {
      PrintParseArray(r.element, depth, x);
    } else {
      PrintParseLeaf(r, depth, x);
    }
  }

  lemma {:induction false} PrintParseArray(rs: seq<Reply>, depth: nat, x: seq<Byte>)
    requires Fits(Array(rs), depth)
    ensures ParseReply(Print(Array(rs)) + x, depth) == Done(Array(rs), x)
    decreases rs, 1
  {
    var s, y := Print(Array(rs)) + x, PrintMany(rs) + x;
    Assoc([STAR], Line(Signed(|rs|)), PrintMany(rs));
    Assoc([STAR], Line(Signed(|rs|)) + PrintMany(rs), x);
    Assoc(Line(Signed(|rs|)), PrintMany(rs), x);
    assert s == [STAR] + (Line(Signed(|rs|)) + y);
    ParseHead(STAR, KArray, Line(Signed(|rs|)) + y, depth);
    ReadNumber(KArray, |rs|, y);
    if rs == [] {
      assert y == x;
    } else {
      PrintParseMany(rs, depth + 1, x);
    }
  }

  lemma {:induction false} PrintParseMany(rs: seq<Reply>, depth: nat, x: seq<Byte>)
    requires forall i :: 0 <= i < |rs| ==> Fits(rs[i], depth)
    ensures ParseMany(PrintMany(rs) + x, |rs|, depth) == Done(rs, x)
    decreases rs, 0
  {
    if rs == [] {
      assert PrintMany(rs) + x == x;
    } else {
      var y := PrintMany(rs[1..]) + x;
      Assoc(Print(rs[0]), PrintMany(rs[1..]), x);
      PrintParse(rs[0], depth, y);
      PrintParseMany(rs[1..], depth, x);
      assert [rs[0]] + rs[1..] == rs;
    }
  }

  /** A line is cut at the first CR LF pair, wherever that stands. */
  lemma LineIsCut(t: seq<Byte>, x: seq<Byte>, j: nat)
    requires CrlfAt(t, j)
    ensures Newline(Line(t) + x).Some? && Newline(Line(t) + x).value <= j
  {
    var s := Line(t) + x;
    assert s[j] == t[j] && s[j + 1] == t[j + 1];
    assert CrlfAt(s, j);
  }

  lemma TextRoundTripIff(b: Byte, k: Kind, t: seq<Byte>, x: seq<Byte>)
    requires KindOf(b) == Some(k) && (k.KStatus? || k.KError?)
    ensures ParseReply([b] + Line(t) + x, 0) == Done(if k.KStatus? then Status(t) else Error(t), x) <==> CrlfFree(t)
  {
    if CrlfFree(t) {
      PrintParseText(b, k, t, 0, x);
    } else {
      var j :| CrlfAt(t, j);
      LineIsCut(t, x, j);
      Assoc([b], Line(t), x);
      ParseHead(b, k, Line(t) + x, 0);
      var i := Newline(Line(t) + x).value;
      assert |(Line(t) + x)[..i]| == i < |t|;
    }
  }

  /** A status or error line survives exactly when its text holds no CR LF pair. */
  lemma StatusRoundTripIff(t: seq<Byte>, x: seq<Byte>)
    ensures ParseReply(Print(Status(t)) + x, 0) == Done(Status(t), x) <==> CrlfFree(t)
    ensures ParseReply(Print(Error(t)) + x, 0) == Done(Error(t), x) <==> CrlfFree(t)
  {
    TextRoundTripIff(PLUS, KStatus, t, x);
    TextRoundTripIff(MINUS, KError, t, x);
  }

  /** Printed replies back to back are read back as exactly that list. */
  lemma {:induction false} PrintParseAll(rs: seq<Reply>)
    requires forall i :: 0 <= i < |rs| ==> Fits(rs[i], 0)
    ensures ParseAll(PrintMany(rs)) == Transcript(rs, None)
  {
    if rs != [] {
      PrintParse(rs[0], 0, PrintMany(rs[1..]));
      PrintParseAll(rs[1..]);
      assert [rs[0]] + rs[1..] == rs;
    }
  }
}
