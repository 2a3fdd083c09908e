/** The resumable parser as a small-step machine over values: a stack of arrays
    under construction, the type of the current item once it is known, and the
    bytes not yet consumed. The reader class refines this machine; here the
    machine is related to the recursive parser and shown to be indifferent to chunking. */
module Machine {
  import opened Bytes
  import opened Resp
  import opened Decimal

  /** An array under construction: `n` elements announced, `kids` finished. */
  datatype Frame = Frame(n: nat, kids: seq<Reply>)

  /** Outermost frame first. */
  datatype State = State(stack: seq<Frame>, kind: Option<Kind>, rest: seq<Byte>)

  predicate GoodStack(stack: seq<Frame>) {
    |stack| <= MAX_DEPTH && forall i :: 0 <= i < |stack| ==> |stack[i].kids| < stack[i].n
  }

  predicate Good(m: State) {
    && GoodStack(m.stack)
    && (m.kind == Some(KArray) ==> |m.stack| < MAX_DEPTH)
  }

  function Fresh(s: seq<Byte>): State {
    State([], None, s)
  }

  function Top(stack: seq<Frame>): Frame
    requires stack != []
  {
    stack[|stack| - 1]
  }

  function Pop(stack: seq<Frame>): seq<Frame>
    requires stack != []
  {
    stack[..|stack| - 1]
  }

  /** What finishing the item `v` does to the stack: either the next item is due
      at the returned stack, or `v` completed the root reply. */
  datatype Finish = NextItem(stack: seq<Frame>) | Root(reply: Reply)

  function Complete(stack: seq<Frame>, v: Reply): (f: Finish)
    requires GoodStack(stack)
    ensures f.NextItem? ==> GoodStack(f.stack) && 0 < |f.stack| <= |stack|
    decreases |stack|
  {
    if stack == [] then Root(v)
    else
      var f := Top(stack);
      var kids := f.kids + [v];
      if |kids| == f.n then Complete(Pop(stack), Array(kids))
      else NextItem(Pop(stack) + [Frame(f.n, kids)])
  }

  datatype Outcome = Stuck | Failed(fault: Fault) | Next(m: State, out: Option<Reply>)

  function Step(m: State): (o: Outcome)
    requires Good(m)
    ensures o.Next? ==> Good(o.m) && |o.m.rest| < |m.rest|
  {
    match m.kind
    case None =>
      if m.rest == [] then Stuck
      else
        (match KindOf(m.rest[0])
         case None => Failed(BadTypeByte(m.rest[0]))
         case Some(k) =>
           if k.KArray? && |m.stack| == MAX_DEPTH then Failed(TooDeep)
           else Next(State(m.stack, Some(k), m.rest[1..]), None))
    case Some(k) =>
      match ReadItem(k, m.rest)
      case Wait => Stuck
      case Bad(fault) => Failed(fault)
      case Open(n, rest) => Next(State(m.stack + [Frame(n, [])], None, rest), None)
      case Leaf(v, rest) =>
        match Complete(m.stack, v)
        case NextItem(stack) => Next(State(stack, None, rest), None)
        case Root(reply) => Next(State([], None, rest), Some(reply))
  }

  /** A reader session: alive in some machine state, or dead after a fault. */
  datatype Session = Live(m: State) | Dead(fault: Fault)

  datatype Result = Result(session: Session, replies: seq<Reply>)

  /** redisReaderGetReply: run to the first reply, or until stuck or failed. */
  function Get(m: State): (r: Result)
    requires Good(m)
    ensures r.session.Live? ==> Good(r.session.m) && |r.session.m.rest| <= |m.rest|
    ensures |r.replies| <= 1 && (r.session.Dead? ==> r.replies == [])
    decreases |m.rest|
  {
    match Step(m)
    case Stuck => Result(Live(m), [])
    case Failed(fault) => Result(Dead(fault), [])
    case Next(m', Some(reply)) => Result(Live(m'), [reply])
    case Next(m', None) => Get(m')
  }

  /** Every reply that can be had from the bytes at hand. */
  function Drain(m: State): (r: Result)
    requires Good(m)
    decreases |m.rest|
  {
    match Step(m)
    case Stuck => Result(Live(m), [])
    case Failed(fault) => Result(Dead(fault), [])
    case Next(m', out) =>
      var r := Drain(m');
      if out.Some? then Result(r.session, [out.value] + r.replies) else r
  }

  function Append(m: State, x: seq<Byte>): State {
    m.(rest := m.rest + x)
  }

  // ----- Chunk independence -----

  /** What a user of the reader does. */
  datatype Op = Feed(bytes: seq<Byte>) | GetReply

  ghost predicate GoodSession(s: Session) {
    s.Live? ==> Good(s.m)
  }

  function Perform(s: Session, op: Op): (r: Result)
    requires s.Live? ==> Good(s.m)
    ensures r.session.Live? ==> Good(r.session.m)
  {
    if s.Dead? then Result(s, [])
    else
      match op
      case Feed(x) => Result(Live(Append(s.m, x)), [])
      case GetReply => Get(s.m)
  }

  function PerformAll(s: Session, ops: seq<Op>): (r: Result)
    requires s.Live? ==> Good(s.m)
    ensures r.session.Live? ==> Good(r.session.m)
    decreases |ops|
  {
    if ops == [] then Result(s, [])
    else
      var r := Perform(s, ops[0]);
      var r' := PerformAll(r.session, ops[1..]);
      Result(r'.session, r.replies + r'.replies)
  }

  function DrainSession(s: Session): Result
    requires s.Live? ==> Good(s.m)
  {
    if s.Dead? then Result(s, []) else Drain(s.m)
  }

  /** The bytes a list of operations feeds, in order. */
  function Stream(ops: seq<Op>): seq<Byte> {
    if ops == [] then []
    else (if ops[0].Feed? then ops[0].bytes else []) + Stream(ops[1..])
  }

  /** The first line and what follows it, once the line is complete. */
  lemma LineIsStable(s: seq<Byte>, x: seq<Byte>)
    requires Newline(s).Some?
    ensures Newline(s + x) == Newline(s)
    ensures var i := Newline(s).value; (s + x)[..i] == s[..i] && (s + x)[i + 2..] == s[i + 2..] + x
  {
    var i := Newline(s).value;
    forall j | 0 <= j < i
      ensures !CrlfAt(s + x, j)
    {
      assert !CrlfAt(s, j);
    }
    NewlineIs(s + x, i);
  }

  lemma BulkIsStable(num: Number, rest: seq<Byte>, x: seq<Byte>)
    requires !BulkItem(num, rest).Wait?
    ensures BulkItem(num, rest + x) == Extend(BulkItem(num, rest), x)
  {
    if num.Num? && 0 <= num.v && num.v + 2 <= |rest| {
      assert (rest + x)[..num.v] == rest[..num.v];
      assert (rest + x)[num.v + 2..] == rest[num.v + 2..] + x;
    }
  }

  /** The same item with `x` behind the bytes it leaves. */
  function Extend(i: Item, x: seq<Byte>): Item {
    match i
    case Leaf(v, rest) => Leaf(v, rest + x)
    case Open(n, rest) => Open(n, rest + x)
    case _ => i
  }

  /** More input never changes an item that could already be read. */
  lemma ItemIsStable(k: Kind, s: seq<Byte>, x: seq<Byte>)
    requires !ReadItem(k, s).Wait?
    ensures ReadItem(k, s + x) == Extend(ReadItem(k, s), x)
  {
    LineIsStable(s, x);
    var i := Newline(s).value;
    if k.KStr? {
      BulkIsStable(LongLong(s[..i]), s[i + 2..], x);
    }
  }

  lemma StepIsStable(m: State, x: seq<Byte>)
    requires Good(m) && !Step(m).Stuck?
    ensures match Step(m)
            case Next(m', out) => Step(Append(m, x)) == Next(Append(m', x), out)
            case Failed(fault) => Step(Append(m, x)) == Failed(fault)
            case Stuck => true
  {
    if m.kind.Some? {
      ItemIsStable(m.kind.value, m.rest, x);
    } else {
      assert (m.rest + x)[1..] == m.rest[1..] + x;
    }
  }

  function After(replies: seq<Reply>, r: Result): Result {
    Result(r.session, replies + r.replies)
  }

  /** A session that later receives `x` and is then drained. */
  function DrainWith(s: Session, x: seq<Byte>): Result
    requires s.Live? ==> Good(s.m)
  {
    if s.Dead? then Result(s, []) else Drain(Append(s.m, x))
  }

  /** Asking for a reply early only moves work forward: whatever arrives later,
      draining yields what draining everything at once would have. */
  lemma {:induction false} GetThenDrain(m: State, x: seq<Byte>)
    requires Good(m)
    ensures Drain(Append(m, x)) == After(Get(m).replies, DrainWith(Get(m).session, x))
    decreases |m.rest|
  {
    match Step(m)
    case Stuck =>
      assert [] + Drain(Append(m, x)).replies == Drain(Append(m, x)).replies;
    case Failed(_) => StepIsStable(m, x);
    case Next(m', out) =>
      StepIsStable(m, x);
      if out.None? {
        GetThenDrain(m', x);
      }
  }

  lemma {:induction false} GetWithoutReplyIsStuck(m: State)
    requires Good(m) && Get(m).replies == [] && Get(m).session.Live?
    ensures Step(Get(m).session.m).Stuck?
    decreases |m.rest|
  {
    match Step(m)
    case Stuck =>
    case Next(m', _) => GetWithoutReplyIsStuck(m');
  }

  lemma {:induction false} GetShrinks(m: State)
    requires Good(m) && Get(m).replies != []
    ensures Get(m).session.Live? && |Get(m).session.m.rest| < |m.rest|
    decreases |m.rest|
  {
    match Step(m)
    case Next(m', out) => if out.None? { GetShrinks(m'); }
  }

  /** A session driven by `ops` and then drained. */
  function Total(s: Session, ops: seq<Op>): Result
    requires s.Live? ==> Good(s.m)
  {
    var r := PerformAll(s, ops);
    After(r.replies, DrainSession(r.session))
  }

  lemma TotalUnfolds(s: Session, ops: seq<Op>)
    requires GoodSession(s) && ops != []
    ensures var r := Perform(s, ops[0]);
            Total(s, ops) == After(r.replies, Total(r.session, ops[1..]))
  {
    var r := Perform(s, ops[0]);
    var r' := PerformAll(r.session, ops[1..]);
    AfterTwice(r.replies, r'.replies, DrainSession(r'.session));
  }

  lemma TotalOfNothing(m: State)
    requires Good(m)
    ensures Total(Live(m), []) == Drain(Append(m, []))
  {
    assert Append(m, []) == m;
    assert [] + Drain(m).replies == Drain(m).replies;
  }

  /** Chunk independence, from any session: for every interleaving of feeds and
      reply requests, what was emitted on the way followed by what draining
      yields, and the final session, are those of one single feed. */
  lemma {:induction false} ChunkingIsIrrelevant(s: Session, ops: seq<Op>)
    requires GoodSession(s)
    ensures Total(s, ops) == DrainWith(s, Stream(ops))
    decreases |ops|
  {
    if s.Dead? {
      DeadStaysDead(s.fault, ops);
    } else if ops == [] {
      TotalOfNothing(s.m);
    } else {
      var r := Perform(s, ops[0]);
      TotalUnfolds(s, ops);
      ChunkingIsIrrelevant(r.session, ops[1..]);
      PerformThenDrain(s.m, ops[0], Stream(ops[1..]));
    }
  }

  lemma AppendTwice(m: State, bytes: seq<Byte>, x: seq<Byte>)
    ensures Append(Append(m, bytes), x) == Append(m, bytes + x)
  {
    Assoc(m.rest, bytes, x);
  }

  lemma AfterNothing(r: Result)
    ensures After([], r) == r
  {
    assert [] + r.replies == r.replies;
  }

  lemma FeedThenDrain(m: State, bytes: seq<Byte>, x: seq<Byte>)
    requires Good(m)
    ensures After([], DrainWith(Live(Append(m, bytes)), x)) == DrainWith(Live(m), bytes + x)
  {
    AppendTwice(m, bytes, x);
    AfterNothing(DrainWith(Live(Append(m, bytes)), x));
  }

  lemma PerformThenDrain(m: State, op: Op, x: seq<Byte>)
    requires Good(m)
    ensures var r := Perform(Live(m), op);
            After(r.replies, DrainWith(r.session, x)) == DrainWith(Live(m), (if op.Feed? then op.bytes else []) + x)
  {
    var y := (if op.Feed? then op.bytes else []) + x;
    if op.Feed? {
      FeedThenDrain(m, op.bytes, x);
    } else {
      assert y == x;
      GetThenDrain(m, x);
      assert DrainWith(Live(m), y) == Drain(Append(m, x));
    }
  }

  lemma {:induction false} DeadStaysDead(fault: Fault, ops: seq<Op>)
    ensures PerformAll(Dead(fault), ops) == Result(Dead(fault), [])
  {
    if ops != [] {
      DeadStaysDead(fault, ops[1..]);
    }
  }

  // ----- The machine refines the recursive parser -----

  /** The parse of the root reply when the current item, at the level of the top
      of the stack, has parsed to `p`. */
  function Climb(stack: seq<Frame>, p: Parse<Reply>): Parse<Reply>
    requires GoodStack(stack)
    decreases |stack|
  {
    if stack == [] || !p.Done? then p
    else
      var f := Top(stack);
      match ParseMany(p.rest, f.n - |f.kids| - 1, |stack|)
      case More => More
      case Fail(fault) => Fail(fault)
      case Done(vs, rest) => Climb(Pop(stack), Done(Array(f.kids + [p.value] + vs), rest))
  }

  /** The parse of the root reply from a machine state on. */
  function Resume(m: State): Parse<Reply>
    requires Good(m)
  {
    var d := |m.stack|;
    Climb(m.stack, if m.kind.Some? then ParseTyped(m.kind.value, m.rest, d) else ParseReply(m.rest, d))
  }

  lemma ParseManyUnfolds(s: seq<Byte>, n: nat, d: nat)
    requires n > 0
    ensures var p := ParseReply(s, d);
            ParseMany(s, n, d) ==
            if !p.Done? then (if p.More? then More else Fail(p.fault))
            else match ParseMany(p.rest, n - 1, d)
                 case More => More
                 case Fail(fault) => Fail(fault)
                 case Done(vs, rest) => Done([p.value] + vs, rest)
  {
  }

  /** The array whose first elements are `kids` and whose others are still parsed. */
  function WithKids(kids: seq<Reply>, q: Parse<seq<Reply>>): Parse<Reply> {
    match q
    case More => More
    case Fail(fault) => Fail(fault)
    case Done(vs, rest) => Done(Array(kids + vs), rest)
  }

  /** Reading the next element of the top frame is what parsing the array asks for. */
  lemma ClimbNext(stack: seq<Frame>, f: Frame, rest: seq<Byte>)
    requires GoodStack(stack) && |stack| < MAX_DEPTH && |f.kids| < f.n
    ensures var d := |stack| + 1;
            Climb(stack + [f], ParseReply(rest, d))
            == Climb(stack, WithKids(f.kids, ParseMany(rest, f.n - |f.kids|, d)))
  {
    var st, d := stack + [f], |stack| + 1;
    assert Pop(st) == stack && Top(st) == f;
    ParseManyUnfolds(rest, f.n - |f.kids|, d);
    var p := ParseReply(rest, d);
    if p.Done? {
      var q := ParseMany(p.rest, f.n - |f.kids| - 1, d);
      if q.Done? {
        Assoc(f.kids, [p.value], q.value);
      }
    }
  }

  lemma OpenIsParsed(s: seq<Byte>, n: nat, rest: seq<Byte>, d: nat)
    requires ReadItem(KArray, s) == Open(n, rest)
    ensures ParseTyped(KArray, s, d) == WithKids([], ParseMany(rest, n, d + 1))
  {
    var q := ParseMany(rest, n, d + 1);
    assert q.Done? ==> [] + q.value == q.value;
  }

  /** A finished element leaves the others of its array to be parsed. */
  lemma ClimbUnfolds(stack: seq<Frame>, v: Reply, rest: seq<Byte>)
    requires GoodStack(stack) && stack != []
    ensures var f := Top(stack);
            Climb(stack, Done(v, rest)) ==
            Climb(Pop(stack), WithKids(f.kids + [v], ParseMany(rest, f.n - |f.kids| - 1, |stack|)))
  {
  }

  lemma {:induction false} CompleteClimbs(stack: seq<Frame>, v: Reply, rest: seq<Byte>)
    requires GoodStack(stack)
    ensures match Complete(stack, v)
            case Root(reply) => Climb(stack, Done(v, rest)) == Done(reply, rest)
            case NextItem(stack') => Climb(stack, Done(v, rest)) == Resume(State(stack', None, rest))
    decreases |stack|
  {
    if stack != [] {
      var f := Top(stack);
      var kids := f.kids + [v];
      ClimbUnfolds(stack, v, rest);
      if |kids| == f.n {
        assert kids + [] == kids;
        assert WithKids(kids, ParseMany(rest, 0, |stack|)) == Done(Array(kids), rest);
        CompleteClimbs(Pop(stack), Array(kids), rest);
      } else {
        ClimbNext(Pop(stack), Frame(f.n, kids), rest);
      }
    }
  }

  lemma ClimbOpen(stack: seq<Frame>, n: nat, rest: seq<Byte>, p: Parse<Reply>)
    requires GoodStack(stack) && |stack| < MAX_DEPTH && n > 0
    requires p == WithKids([], ParseMany(rest, n, |stack| + 1))
    ensures GoodStack(stack + [Frame(n, [])])
    ensures Resume(State(stack + [Frame(n, [])], None, rest)) == Climb(stack, p)
  {
    ClimbNext(stack, Frame(n, []), rest);
  }

  lemma OpenResumes(m: State, n: nat, rest: seq<Byte>)
    requires Good(m) && m.kind == Some(KArray) && ReadItem(KArray, m.rest) == Open(n, rest)
    ensures Resume(State(m.stack + [Frame(n, [])], None, rest)) == Resume(m)
  {
    OpenIsParsed(m.rest, n, rest, |m.stack|);
    ClimbOpen(m.stack, n, rest, ParseTyped(KArray, m.rest, |m.stack|));
  }

  lemma LeafResumes(m: State, v: Reply, rest: seq<Byte>)
    requires Good(m) && m.kind.Some? && ReadItem(m.kind.value, m.rest) == Leaf(v, rest)
    ensures Resume(m) == Climb(m.stack, Done(v, rest))
  {
  }

  lemma TypeByteResumes(m: State)
    requires Good(m) && m.kind.None? && Step(m).Next?
    ensures Resume(Step(m).m) == Resume(m)
  {
  }

  /** Every step of the machine keeps the parse of the root reply. */
  lemma StepResumes(m: State)
    requires Good(m)
    ensures match Step(m)
            case Stuck => Resume(m) == More
            case Failed(fault) => Resume(m) == Fail(fault)
            case Next(m', None) => Resume(m') == Resume(m)
            case Next(m', Some(reply)) => Resume(m) == Done(reply, m'.rest) && m' == Fresh(m'.rest)
  {
    if m.kind.None? {
      if Step(m).Next? { TypeByteResumes(m); }
    } else {
      match ReadItem(m.kind.value, m.rest) {
        case Leaf(v, rest) =>
          LeafResumes(m, v, rest);
          CompleteClimbs(m.stack, v, rest);
        case Open(n, rest) => OpenResumes(m, n, rest);
        case _ =>
      }
    }
  }

  /** Draining a fresh machine is parsing the whole stream recursively. */
  lemma {:induction false} DrainIsParseAll(m: State)
    requires Good(m)
    ensures var r := Drain(m);
            var fault := if r.session.Dead? then Some(r.session.fault) else None;
            Transcript(r.replies, fault) ==
            match Resume(m)
            case More => Transcript([], None)
            case Fail(f) => Transcript([], Some(f))
            case Done(v, rest) => Transcript([v] + ParseAll(rest).replies, ParseAll(rest).fault)
    decreases |m.rest|
  {
    StepResumes(m);
    match Step(m)
    case Stuck =>
    case Failed(_) =>
    case Next(m', out) => DrainIsParseAll(m');
  }

  /** The main result about the machine: any interleaving of feeds and reply
      requests, once drained, has emitted exactly the recursive parse of the
      concatenated input, and ends in the same fault or in none. */
  lemma AnyChunkingParsesTheStream(ops: seq<Op>)
    ensures var r := PerformAll(Live(Fresh([])), ops);
            var d := DrainSession(r.session);
            && r.replies + d.replies == ParseAll(Stream(ops)).replies
            && (d.session.Dead? <==> ParseAll(Stream(ops)).fault.Some?)
            && (d.session.Dead? ==> ParseAll(Stream(ops)).fault == Some(d.session.fault))
  {
    ChunkingIsIrrelevant(Live(Fresh([])), ops);
    var m := Fresh(Stream(ops));
    assert Append(Fresh([]), Stream(ops)) == m by { assert [] + Stream(ops) == Stream(ops); }
    DrainIsParseAll(m);
  }

  /** One request on a printed reply followed by any bytes emits exactly that
      reply and leaves exactly those bytes. */
  lemma PrintedReplyIsEmitted(r: Reply, x: seq<Byte>)
    requires Fits(r, 0)
    ensures Get(Fresh(Print(r) + x)) == Result(Live(Fresh(x)), [r])
  {
    PrintParse(r, 0, x);
    GetIsResume(Fresh(Print(r) + x));
  }

  lemma {:induction false} GetIsResume(m: State)
    requires Good(m)
    ensures match Resume(m)
            case Done(v, rest) => Get(m) == Result(Live(Fresh(rest)), [v])
            case Fail(fault) => Get(m) == Result(Dead(fault), [])
            case More => Get(m).session.Live? && Get(m).replies == []
    decreases |m.rest|
  {
    StepResumes(m);
    match Step(m)
    case Stuck =>
    case Failed(_) =>
    case Next(m', out) => if out.None? { GetIsResume(m'); }
  }

  // ----- Sessions that grow one operation at a time -----

  /** Performing `ops` on a new reader has led to session `s` and emitted `replies`. */
  ghost predicate History(ops: seq<Op>, s: Session, replies: seq<Reply>) {
    PerformAll(Live(Fresh([])), ops) == Result(s, replies)
  }

  lemma PerformAllUnfolds(s: Session, ops: seq<Op>)
    requires GoodSession(s) && ops != []
    ensures var p := Perform(s, ops[0]); PerformAll(s, ops) == After(p.replies, PerformAll(p.session, ops[1..]))
  {
  }

  lemma PerformOne(s: Session, op: Op)
    requires GoodSession(s)
    ensures PerformAll(s, [op]) == Perform(s, op)
  {
    assert [op][1..] == [];
    assert Perform(s, op).replies + [] == Perform(s, op).replies;
  }

  lemma AfterTwice(a: seq<Reply>, b: seq<Reply>, r: Result)
    ensures After(a, After(b, r)) == After(a + b, r)
  {
    Assoc(a, b, r.replies);
  }

  lemma {:induction false} PerformAllGrows(s: Session, ops: seq<Op>, op: Op)
    requires GoodSession(s)
    ensures var r := PerformAll(s, ops);
            PerformAll(s, ops + [op]) == After(r.replies, Perform(r.session, op))
    decreases |ops|
  {
    if ops == [] {
      assert [] + [op] == [op];
      PerformOne(s, op);
      AfterNothing(Perform(s, op));
    } else {
      var p, all := Perform(s, ops[0]), ops + [op];
      PerformAllUnfolds(s, ops);
      assert all[0] == ops[0] && all[1..] == ops[1..] + [op];
      PerformAllUnfolds(s, all);
      PerformAllGrows(p.session, ops[1..], op);
      var r := PerformAll(p.session, ops[1..]);
      AfterTwice(p.replies, r.replies, Perform(r.session, op));
    }
  }

  lemma {:induction false} StreamGrows(ops: seq<Op>, op: Op)
    ensures Stream(ops + [op]) == Stream(ops) + (if op.Feed? then op.bytes else [])
  {
    if ops == [] {
      assert [] + [op] == [op] && [op][1..] == [];
    } else {
      StreamGrows(ops[1..], op);
      var all := ops + [op];
      assert all[0] == ops[0] && all[1..] == ops[1..] + [op];
      Assoc(if ops[0].Feed? then ops[0].bytes else [], Stream(ops[1..]), if op.Feed? then op.bytes else []);
    }
  }

  lemma HistoryGrows(ops: seq<Op>, s: Session, replies: seq<Reply>, op: Op)
    requires History(ops, s, replies)
    ensures GoodSession(s)
    ensures History(ops + [op], Perform(s, op).session, replies + Perform(s, op).replies)
    ensures Stream(ops + [op]) == Stream(ops) + (if op.Feed? then op.bytes else [])
  {
    PerformAllGrows(Live(Fresh([])), ops, op);
    StreamGrows(ops, op);
  }

  lemma HistoryFeeds(ops: seq<Op>, s: Session, replies: seq<Reply>, bytes: seq<Byte>)
    requires History(ops, s, replies)
    ensures GoodSession(s)
    ensures History(ops + [Op.Feed(bytes)], Perform(s, Op.Feed(bytes)).session, replies)
    ensures Stream(ops + [Op.Feed(bytes)]) == Stream(ops) + bytes
  {
    HistoryGrows(ops, s, replies, Op.Feed(bytes));
    assert replies + [] == replies;
  }

  /** At any moment the emitted replies are a prefix of the parse of the input so
      far; after a fault they are all of it. */
  lemma HistoryIsPrefix(ops: seq<Op>, s: Session, replies: seq<Reply>)
    requires History(ops, s, replies)
    ensures replies <= ParseAll(Stream(ops)).replies
    ensures s.Dead? ==> ParseAll(Stream(ops)) == Transcript(replies, Some(s.fault))
  {
    AnyChunkingParsesTheStream(ops);
  }

  /** Once a request has found no complete reply, everything complete was emitted. */
  lemma HistoryIsComplete(ops: seq<Op>, s: Session, replies: seq<Reply>)
    requires History(ops, s, replies) && s.Live? && Good(s.m) && Step(s.m).Stuck?
    ensures ParseAll(Stream(ops)) == Transcript(replies, None)
  {
    AnyChunkingParsesTheStream(ops);
    assert replies + [] == replies;
  }

  /** A reader that has no complete reply to give. */
  ghost predicate Quiet(s: Session) {
    s.Live? && Good(s.m) && Step(s.m).Stuck?
  }

  /** A reader that was given exactly this input, has emitted exactly these replies
      and has no further one. */
  datatype Past = Past(ops: seq<Op>, s: Session)

  ghost predicate Paused(past: Past, stream: seq<Byte>, replies: seq<Reply>) {
    History(past.ops, past.s, replies) && Stream(past.ops) == stream && Quiet(past.s)
  }

  /** Then these are all replies of the input. */
  lemma PausedIsAll(past: Past, stream: seq<Byte>, replies: seq<Reply>)
    requires Paused(past, stream, replies)
    ensures ParseAll(stream) == Transcript(replies, None)
  {
    HistoryIsComplete(past.ops, past.s, replies);
  }

  /** One more request: it yields the next reply of the input if that is complete,
      and the input's fault if there is one instead. */
  lemma HistoryAsks(ops: seq<Op>, s: Session, replies: seq<Reply>)
    requires History(ops, s, replies)
    ensures GoodSession(s)
    ensures var p := Perform(s, Op.GetReply);
            && History(ops + [Op.GetReply], p.session, replies + p.replies)
            && (p.session.Dead? ==> p.replies == [])
            && (p.replies == [] ==> replies + p.replies == replies && (p.session.Live? ==> Quiet(p.session)))
            && (s.Live? && p.replies != [] ==> |p.session.m.rest| < |s.m.rest|)
    ensures Stream(ops + [Op.GetReply]) == Stream(ops)
  {
    HistoryGrows(ops, s, replies, Op.GetReply);
    assert Stream(ops) + [] == Stream(ops);
    var p := Perform(s, Op.GetReply);
    if s.Live? && p.replies != [] {
      GetShrinks(s.m);
    }
    if p.replies == [] && p.session.Live? {
      GetWithoutReplyIsStuck(s.m);
    }
  }
}
