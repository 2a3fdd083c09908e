/** The incremental reply reader of read.c: a cursor into a growing buffer, a
    nine-slot task stack and reply objects filled in place. Each method is proved
    to take the steps of the machine of module Machine. */
module Readers {
  import opened Bytes
  import opened Decimal
  import opened SdsStrings
  import opened Resp
  import opened Machine
  import opened ReplyObjects

  const REDIS_READER_MAX_BUF: nat := 1024 * 16

  /** seekNewline. It may look at the byte behind the last one, which is the
      terminator of the buffer and so never completes a CR LF pair. */
  method SeekNewline(s: seq<Byte>, len: nat) returns (r: Option<nat>)
    requires len < |s| && s[len] == NUL
    ensures r == Newline(s[..len])
  {
    var p, last := 0, len - 1;
    while p < last
      invariant 0 <= p <= len
      invariant forall j :: 0 <= j < p ==> !CrlfAt(s[..len], j)
    {
      while p < last && s[p] != CR
        invariant 0 <= p <= last
        invariant forall j :: 0 <= j < p ==> !CrlfAt(s[..len], j)
      {
        p := p + 1;
      }
      if s[p] != CR {
        return None;
      } else if s[p + 1] == LF {
        assert p < last;
        NewlineIs(s[..len], p);
        return Some(p);
      } else {
        p := p + 1;
      }
    }
    return None;
  }

  /** What reading one typed item amounts to. */
  datatype Scan = NotYet | Refused(fault: Fault) | Finished(o: Obj) | Header(n: nat)

  lemma BulkSlices(p: seq<Byte>, avail: nat, n: nat, v: nat)
    requires n + v + 2 <= avail <= |p|
    ensures p[n..n + v] == p[..avail][n..][..v]
    ensures p[..avail][n + v + 2..] == p[..avail][n..][v + 2..]
  {
    var s := p[..avail];
    SliceOfSlice(p, 0, avail, n, n + v);
    SliceOfSlice(s, n, |s|, 0, v);
    SliceOfSlice(s, n, |s|, v + 2, |s| - n);
  }

  /** `scan` is what reading the item `i` amounts to, with `left` behind it. */
  ghost predicate Matches(i: Item, scan: Scan, left: seq<Byte>) {
    match i
    case Wait => scan == NotYet
    case Bad(fault) => scan == Refused(fault)
    case Leaf(v, rest) => scan == Finished(LeafObj(v)) && IsLeaf(v) && left == rest
    case Open(n, rest) => scan == Header(n) && left == rest
  }

  /** A bulk item at the front of `p`, once its first line is complete. */
  lemma BulkHeader(p: seq<Byte>, avail: nat, n: nat)
    requires avail <= |p| && Newline(p[..avail]) == Some(n)
    ensures n + 2 <= avail && p[n] == CR
    ensures ReadItem(KStr, p[..avail]) == BulkItem(LongLong(p[..n]), p[..avail][n + 2..])
  {
    assert CrlfAt(p[..avail], n);
    assert p[..avail][..n] == p[..n];
  }

  /** The payload of a bulk string whose header takes `head` bytes. */
  method Payload(p: seq<Byte>, avail: nat, head: nat, num: Number) returns (scan: Scan, bytelen: nat)
    requires head <= avail <= |p|
    ensures bytelen <= avail && (scan.NotYet? ==> bytelen == 0)
    ensures Matches(BulkItem(num, p[..avail][head..]), scan, p[..avail][bytelen..])
  {
    if num.Overflow? || num.v > LLONG_MAX - 2 { return Refused(OutOfModel), 0; }
    if num.v < 0 { return Finished(NilObj), head; }
    bytelen := head + num.v + 2;
    if bytelen > avail { return NotYet, 0; }
    BulkSlices(p, avail, head, num.v);
    return Finished(StrObj(KStr, p[head..head + num.v])), bytelen;
  }

  /** A bulk string at the front of `p`, of which `avail` bytes are input: what it
      is and how many bytes it takes, none when it is not complete. */
  method BulkAt(p: seq<Byte>, avail: nat) returns (scan: Scan, bytelen: nat)
    requires avail < |p| && p[avail] == NUL
    ensures bytelen <= avail && (scan.NotYet? ==> bytelen == 0)
    ensures Matches(ReadItem(KStr, p[..avail]), scan, p[..avail][bytelen..])
  {
    var s := SeekNewline(p, avail);
    if s.None? { return NotYet, 0; }
    BulkHeader(p, avail, s.value);
    HeaderNumber(p, s.value);
    var num := ReadLongLong(p);
    scan, bytelen := Payload(p, avail, s.value + 2, num);
  }

  /** What processMultiBulkItem makes of an element count. */
  function CountScan(num: Number): Scan {
    if num.Overflow? || num.v < -1 || num.v > INT_MAX then Refused(OutOfModel)
    else if num.v == -1 then Finished(NilObj)
    else if num.v == 0 then Finished(ArrObj([]))
    else Header(num.v)
  }

  /** What processLineItem makes of a line. */
  function LineScan(kind: Kind, line: seq<Byte>, num: Number): Scan {
    if kind != KInteger then Finished(StrObj(kind, line))
    else if num.Overflow? then Refused(OutOfModel)
    else Finished(IntObj(num.v))
  }

  lemma CountScanMatches(num: Number, rest: seq<Byte>)
    ensures Matches(ArrayItem(num, rest), CountScan(num), rest)
  {
  }

  lemma IntegerScanMatches(num: Number, line: seq<Byte>, rest: seq<Byte>)
    ensures Matches(IntegerItem(num, rest), LineScan(KInteger, line, num), rest)
  {
  }

  /** The item on a line, by its kind. */
  lemma LineHeader(kind: Kind, s: seq<Byte>, i: nat, line: seq<Byte>)
    requires Newline(s) == Some(i) && line == s[..i]
    ensures kind.KArray? ==> ReadItem(kind, s) == ArrayItem(LongLong(line), s[i + 2..])
    ensures kind.KInteger? ==> ReadItem(kind, s) == IntegerItem(LongLong(line), s[i + 2..])
    ensures kind.KStatus? ==> ReadItem(kind, s) == Leaf(Status(line), s[i + 2..])
    ensures kind.KError? ==> ReadItem(kind, s) == Leaf(Error(line), s[i + 2..])
  {
  }

  /** Objects below the mark `n` stay as they are, and the mark does not go down. */
  ghost predicate Keeps(objs: seq<Obj>, n: nat, objs': seq<Obj>, n': nat)
    requires n <= |objs|
  {
    n <= n' && |objs| <= |objs'| && forall i :: 0 <= i < n ==> objs'[i] == objs[i]
  }

  class Reader {
    var err: Option<Fault>
    /** The input buffer; null after an error. */
    var buf: Sds?
    var pos: nat
    var len: nat
    var maxbuf: nat
    const rstack: array<Task>
    /** Slot of the current task, or -1 when no reply is being read. */
    var ridx: int
    /** Address of the root object under construction. */
    var reply: int
    /** The reply objects created so far. */
    var objs: seq<Obj>
    /** The arrays under construction, as the machine sees them. */
    ghost var stack: seq<Frame>

    ghost predicate BufOk()
      reads this, buf
    {
      buf != null && buf.Valid() && len == buf.len && pos <= len
    }

    ghost predicate Inv()
      reads this, rstack, buf
    {
      && rstack.Length == STACK_SIZE
      && (err.Some? ==> ridx == -1 && buf == null && reply == NULL && pos == len == 0)
      && (err.None? ==> BufOk())
      && -1 <= ridx <= MAX_DEPTH
      && (ridx == -1 ==> stack == [])
      && (ridx >= 0 ==>
            && Spine(objs, rstack[..], ridx, NULL, stack)
            && (rstack[ridx].kind == Some(KArray) ==> ridx < MAX_DEPTH))
      && (ridx > 0 ==> reply == rstack[0].obj)
    }

    /** Between calls a reply is pending only while one of its arrays is open. */
    ghost predicate Valid()
      reads this, rstack, buf
    {
      Inv() && (ridx <= 0 ==> reply == NULL)
    }

    ghost function Rest(): seq<Byte>
      requires buf != null && buf.Sized() && pos <= buf.len
      reads this, buf
    {
      buf.Contents()[pos..]
    }

    ghost function M(): State
      requires Inv() && err.None?
      reads this, rstack, buf
    {
      State(stack, if ridx < 0 then None else rstack[ridx].kind, Rest())
    }

    ghost function Abs(): Session
      requires Inv()
      reads this, rstack, buf
    {
      if err.Some? then Dead(err.value) else Live(M())
    }

    /** Objects below this address belong to replies already emitted. */
    ghost function Settled(): nat
      requires Inv()
      reads this, rstack, buf
      ensures Settled() <= |objs|
    {
      if ridx > 0 then
        assert Level(objs, rstack[..], ridx, NULL, 0, stack[0]);
        rstack[0].obj
      else |objs|
    }

    lemma AbsIsGood()
      requires Inv()
      ensures GoodSession(Abs())
    {
      if ridx >= 0 {
        SpineIsGood(objs, rstack[..], ridx, NULL, stack);
      }
    }

    /** redisReaderCreateWithFunctions. */
    constructor ()
      ensures Valid() && Abs() == Live(Fresh([])) && objs == []
      ensures fresh(buf) && fresh(rstack)
    {
      var b := new Sds.Empty();
      buf, err, pos, len := b, None, 0, 0;
      maxbuf := REDIS_READER_MAX_BUF;
      rstack := new Task[STACK_SIZE](_ => Task(None, -1, -1, NULL, NULL));
      ridx, reply, objs, stack := -1, NULL, [], [];
    }

    /** __redisReaderSetError: drop the reply, the input and the task stack. */
    method SetError(fault: Fault)
      requires Inv()
      modifies this
      ensures Valid() && err == Some(fault) && objs == old(objs)
    {
      reply, buf, pos, len, ridx, err := NULL, null, 0, 0, -1, Some(fault);
      stack := [];
    }

    /** redisReaderFeed. */
    method Feed(bytes: seq<Byte>) returns (ok: bool)
      requires Valid()
      modifies this, buf
      ensures Valid() && ok == err.None? && objs == old(objs) && Settled() == old(Settled())
      ensures buf == old(buf) || fresh(buf)
      ensures GoodSession(old(Abs())) && Abs() == Perform(old(Abs()), Op.Feed(bytes)).session
    {
      AbsIsGood();
      if err.Some? { return false; }
      if |bytes| >= 1 {
        if len == 0 && maxbuf != 0 && buf.free > maxbuf {
          buf := new Sds.Empty();
          pos := 0;
        }
        ghost var had := Rest();
        buf.CatLen(bytes);
        len := buf.len;
        assert Rest() == had + bytes;
      } else {
        assert Rest() + bytes == Rest();
      }
      return true;
    }

    /** readLine: the buffer from the cursor on and the length of its first line
        (-1 if the line is not complete yet), with the cursor moved behind the line. */
    method ReadLine() returns (p: seq<Byte>, n: int)
      requires BufOk()
      modifies this`pos
      ensures BufOk() && -1 <= n
      ensures match Newline(old(Rest()))
              case None => n == -1 && pos == old(pos)
              case Some(i) =>
                && n == i < |p| && p[n] == CR
                && p[..n] == old(Rest())[..i] && Rest() == old(Rest())[i + 2..]
    {
      p := buf.buf[pos..];
      assert p[..len - pos] == Rest();
      var s := SeekNewline(p, len - pos);
      n := -1;
      if s.Some? {
        n := s.value;
        assert p[..n] == Rest()[..n] && p[n] == Rest()[n];
        pos := pos + n + 2;
      }
    }

    /** The create*Object builders: a new object, attached to its parent if it has one. */
    method Create(o: Obj) returns (id: int)
      requires Inv() && err.None? && ridx >= 0
      modifies this`objs
      ensures id == old(|objs|) && |objs| == id + 1 && objs[id] == o
      ensures Spine(objs, rstack[..], ridx, id, stack)
      ensures forall i :: 0 <= i < old(|objs|) && (ridx == 0 || i != rstack[ridx - 1].obj) ==> objs[i] == old(objs)[i]
      ensures ridx > 0 ==> 0 <= rstack[0].obj <= rstack[ridx - 1].obj < id
    {
      ghost var tasks := rstack[..];
      ParentIsArray(objs, tasks, ridx, stack);
      AttachKeepsSpine(objs, tasks, ridx, stack, o);
      if ridx > 1 {
        SpineIsOrdered(objs, tasks, ridx, NULL, stack, 0, ridx - 1);
      }
      if ridx > 0 {
        assert Level(objs, tasks, ridx, NULL, 0, stack[0]);
        assert Level(objs, tasks, ridx, NULL, ridx - 1, stack[ridx - 1]);
      }
      var cur := rstack[ridx];
      id := |objs|;
      if cur.parent != NULL {
        var parent := rstack[cur.parent].obj;
        objs := objs[parent := ArrObj(objs[parent].element[cur.idx := id])];
      }
      objs := objs + [o];
    }

    /** moveToNextTask: the current item is finished as object `id` with value `v`. */
    method MoveToNextTask(ghost id: int, ghost v: Reply)
      requires rstack.Length == STACK_SIZE && 0 <= ridx <= MAX_DEPTH && id != NULL
      requires Spine(objs, rstack[..], ridx, id, stack)
      requires Built(objs, id, |objs|, v)
      requires GoodStack(stack)
      modifies this`ridx, this`stack, rstack
      ensures match Complete(old(stack), v)
              case Root(root) =>
                && ridx == -1 && stack == []
                && Built(objs, if old(ridx) == 0 then id else old(rstack[0].obj), |objs|, root)
              case NextItem(stack') =>
                && 0 < ridx <= MAX_DEPTH && stack == stack'
                && Spine(objs, rstack[..], ridx, NULL, stack)
                && rstack[ridx].kind == None
                && rstack[0].obj == old(rstack[0].obj)
    {
      ghost var cur, val, stack0 := id, v, stack;
      while ridx >= 0
        invariant 0 <= ridx <= MAX_DEPTH && cur != NULL
        invariant rstack[..] == old(rstack[..])
        invariant Spine(objs, rstack[..], ridx, cur, stack)
        invariant Built(objs, cur, |objs|, val)
        invariant GoodStack(stack)
        invariant Complete(stack0, v) == Complete(stack, val)
        invariant ridx == 0 ==> cur == if old(ridx) == 0 then id else rstack[0].obj
        decreases ridx
      {
        if ridx == 0 {
          ridx := ridx - 1;
          return;
        }
        TopLevelExtends(objs, rstack[..], ridx, cur, stack, val);
        var elements := rstack[ridx - 1].elements;
        assert rstack[ridx - 1].kind == Some(KArray);
        if rstack[ridx].idx == elements - 1 {
          ghost var kids := Top(stack).kids + [val];
          PopTask(cur, val);
          cur, val := rstack[ridx].obj, Array(kids);
        } else {
          assert rstack[ridx].idx < elements;
          AdvanceTask(cur, val);
          return;
        }
      }
    }

    /** The last element of the array below the current task is finished. */
    method PopTask(ghost cur: int, ghost val: Reply)
      requires rstack.Length == STACK_SIZE && 0 < ridx <= MAX_DEPTH && cur != NULL
      requires Spine(objs, rstack[..], ridx, cur, stack) && Built(objs, cur, |objs|, val)
      requires GoodStack(stack) && |Top(stack).kids| + 1 == Top(stack).n
      modifies this`ridx, this`stack
      ensures ridx == old(ridx) - 1 && stack == Pop(old(stack)) && GoodStack(stack) && rstack[ridx].obj != NULL
      ensures Spine(objs, rstack[..], ridx, rstack[ridx].obj, stack)
      ensures Built(objs, rstack[ridx].obj, |objs|, Array(Top(old(stack)).kids + [val]))
    {
      PopKeepsSpine(objs, rstack[..], ridx, cur, stack, val);
      SpineIsGood(objs, rstack[..], ridx - 1, rstack[ridx - 1].obj, Pop(stack));
      stack := Pop(stack);
      ridx := ridx - 1;
    }

    /** The next element of the array below the current task is due. */
    method AdvanceTask(ghost cur: int, ghost val: Reply)
      requires rstack.Length == STACK_SIZE && 0 < ridx <= MAX_DEPTH && cur != NULL
      requires Spine(objs, rstack[..], ridx, cur, stack) && Built(objs, cur, |objs|, val)
      requires GoodStack(stack) && |Top(stack).kids| + 1 < Top(stack).n
      modifies this`stack, rstack
      ensures stack == Pop(old(stack)) + [Frame(Top(old(stack)).n, Top(old(stack)).kids + [val])]
      ensures Spine(objs, rstack[..], ridx, NULL, stack)
      ensures rstack[ridx].kind == None && rstack[0].obj == old(rstack[0].obj)
    {
      AdvanceKeepsSpine(objs, rstack[..], ridx, cur, stack, val);
      ghost var next := Advance(rstack[..], ridx);
      rstack[ridx] := rstack[ridx].(kind := None, elements := -1, idx := rstack[ridx].idx + 1);
      assert rstack[..] == next;
      stack := Pop(stack) + [Frame(Top(stack).n, Top(stack).kids + [val])];
    }

    /** The state after an attempt to process one typed item from machine state `m`. */
    ghost predicate Took(m: State, ok: bool)
      requires Good(m) && Inv()
      reads this, rstack, buf
    {
      match Step(m)
      case Stuck => !ok && err.None? && ridx >= 0 && M() == m
      case Failed(fault) => !ok && err == Some(fault)
      case Next(m', None) => ok && err.None? && ridx >= 0 && M() == m'
      case Next(m', Some(v)) => ok && err.None? && ridx == -1 && M() == m' && Built(objs, reply, |objs|, v)
    }

    /** The tail common to the process functions: create the object of a finished
        item, make it the root if nothing encloses it, and move on. */
    method Finish(o: Obj, ghost v: Reply)
      requires Inv() && err.None? && ridx >= 0 && o == LeafObj(v) && IsLeaf(v)
      modifies this`objs, this`reply, this`ridx, this`stack, rstack
      ensures Inv() && err.None? && Keeps(old(objs), old(Settled()), objs, Settled()) && Rest() == old(Rest())
      ensures GoodStack(old(stack))
      ensures match Complete(old(stack), v)
              case NextItem(stack') => ridx >= 0 && M() == State(stack', None, Rest())
              case Root(root) => ridx == -1 && M() == Fresh(Rest()) && Built(objs, reply, |objs|, root)
    {
      SpineIsGood(objs, rstack[..], ridx, NULL, stack);
      var obj := Create(o);
      assert LeafObj(v) == ArrObj([]) ==> v == Array([]);
      if ridx == 0 { reply := obj; }
      MoveToNextTask(obj, v);
    }

    /** `scan` is what reading the item `i` amounts to, with the cursor behind it. */
    ghost predicate Scanned(i: Item, scan: Scan)
      requires BufOk()
      reads this, buf
    {
      Matches(i, scan, Rest())
    }

    /** The reading half of processLineItem. */
    method ScanLine(kind: Kind) returns (scan: Scan)
      requires BufOk() && kind in {KStatus, KError, KInteger}
      modifies this`pos
      ensures BufOk() && Scanned(ReadItem(kind, old(Rest())), scan) && (scan.NotYet? ==> pos == old(pos))
    {
      ghost var rest := Rest();
      var p, n := ReadLine();
      if n < 0 { return NotYet; }
      LineHeader(kind, rest, n, p[..n]);
      var num := Num(0);
      if kind == KInteger {
        HeaderNumber(p, n);
        num := ReadLongLong(p);
        IntegerScanMatches(num, p[..n], Rest());
      }
      return LineScan(kind, p[..n], num);
    }

    /** The reading half of processBulkItem. The cursor moves only once the whole
        string is there. */
    method ScanBulk() returns (scan: Scan)
      requires BufOk()
      modifies this`pos
      ensures BufOk() && Scanned(ReadItem(KStr, old(Rest())), scan) && (scan.NotYet? ==> pos == old(pos))
    {
      ghost var rest := Rest();
      var p := buf.buf[pos..];
      assert p[..len - pos] == rest;
      var bytelen;
      scan, bytelen := BulkAt(p, len - pos);
      pos := pos + bytelen;
      assert Rest() == rest[bytelen..];
    }

    /** The reading half of processMultiBulkItem. */
    method ScanMultiBulk() returns (scan: Scan)
      requires BufOk()
      modifies this`pos
      ensures BufOk() && Scanned(ReadItem(KArray, old(Rest())), scan) && (scan.NotYet? ==> pos == old(pos))
    {
      ghost var rest := Rest();
      var p, n := ReadLine();
      if n < 0 { return NotYet; }
      LineHeader(KArray, rest, n, p[..n]);
      HeaderNumber(p, n);
      var num := ReadLongLong(p);
      CountScanMatches(num, Rest());
      return CountScan(num);
    }

    /** The acting half of the process functions, on an item read from state `m`. */
    method Act(scan: Scan, ghost m: State) returns (ok: bool)
      requires Inv() && err.None? && ridx >= 0
      requires Good(m) && m.stack == stack && m.kind == rstack[ridx].kind && m.kind.Some?
      requires Scanned(ReadItem(m.kind.value, m.rest), scan)
      requires scan.NotYet? ==> Rest() == m.rest
      modifies this, rstack
      ensures Inv() && Keeps(old(objs), old(Settled()), objs, Settled())
      ensures Took(m, ok) && (buf == old(buf) || buf == null)
      ensures ridx == 0 ==> old(ridx) == 0 && reply == old(reply)
    {
      match scan {
        case NotYet =>
          return false;
        case Refused(fault) =>
          SetError(fault);
          return false;
        case Finished(o) =>
          Finish(o, ReadItem(m.kind.value, m.rest).value);
          return true;
        case Header(n) =>
          OpenArray(n);
          return true;
      }
    }

    /** A non-empty array header: the new object goes on the task stack. */
    method OpenArray(n: nat)
      requires Inv() && err.None? && 0 <= ridx < MAX_DEPTH && n > 0 && rstack[ridx].kind == Some(KArray)
      modifies this`objs, this`reply, this`ridx, this`stack, rstack
      ensures Inv() && err.None? && ridx >= 0 && Keeps(old(objs), old(Settled()), objs, Settled())
      ensures M() == State(old(stack) + [Frame(n, [])], None, old(Rest()))
    {
      var root := ridx == 0;
      var obj := Create(ArrObj(seq(n, _ => NULL)));
      ghost var tasks := rstack[..];
      PushKeepsSpine(objs, tasks, ridx, stack, n);
      rstack[ridx] := rstack[ridx].(elements := n, obj := obj);
      ridx := ridx + 1;
      rstack[ridx] := Task(None, -1, 0, NULL, ridx - 1);
      stack := stack + [Frame(n, [])];
      assert rstack[..] == Push(tasks, ridx - 1, n, obj);
      if root { reply := obj; }
    }

    /** The type byte of an item whose type is not known yet. */
    method ReadType() returns (ok: bool)
      requires Inv() && err.None? && ridx >= 0 && rstack[ridx].kind.None? && Good(M())
      modifies this, rstack
      ensures Inv() && Keeps(old(objs), old(Settled()), objs, Settled()) && (buf == old(buf) || buf == null)
      ensures ridx == 0 ==> old(ridx) == 0 && reply == old(reply)
      ensures Took(old(M()), ok)
    {
      ghost var rest := Rest();
      if len - pos < 1 { return false; }
      var b := buf.buf[pos];
      assert b == rest[0];
      pos := pos + 1;
      assert Rest() == rest[1..];
      var kind := KindOf(b);
      if kind.None? {
        SetError(BadTypeByte(b));
        return false;
      }
      if kind.value == KArray && ridx == MAX_DEPTH {
        SetError(TooDeep);
        return false;
      }
      SetKind(kind.value);
      return true;
    }

    method ScanItem(kind: Kind) returns (scan: Scan)
      requires BufOk()
      modifies this`pos
      ensures BufOk() && Scanned(ReadItem(kind, old(Rest())), scan) && (scan.NotYet? ==> pos == old(pos))
    {
      match kind {
        case KStr => scan := ScanBulk();
        case KArray => scan := ScanMultiBulk();
        case _ => scan := ScanLine(kind);
      }
    }

    /** processItem on an item whose type is known. */
    method ProcessTyped() returns (ok: bool)
      requires Inv() && err.None? && ridx >= 0 && Good(M()) && rstack[ridx].kind.Some?
      modifies this, rstack
      ensures Inv() && Keeps(old(objs), old(Settled()), objs, Settled()) && (buf == old(buf) || buf == null)
      ensures ridx == 0 ==> old(ridx) == 0 && reply == old(reply)
      ensures Took(old(M()), ok)
    {
      ghost var m := M();
      var scan := ScanItem(rstack[ridx].kind.value);
      ok := Act(scan, m);
    }

    /** The machine state from which the typed item is read. */
    static ghost function Typed(m: State): State
      requires Good(m)
      ensures Good(Typed(m)) && Get(Typed(m)) == Get(m)
    {
      if m.kind.None? && Step(m).Next? then Step(m).m else m
    }

    /** processItem: read the type byte if it is not known yet, then the item. */
    method ProcessItem() returns (ok: bool)
      requires Inv() && err.None? && ridx >= 0 && Good(M())
      modifies this, rstack
      ensures Inv() && Keeps(old(objs), old(Settled()), objs, Settled()) && (buf == old(buf) || buf == null)
      ensures ridx == 0 ==> old(ridx) == 0 && reply == old(reply)
      ensures Took(Typed(old(M())), ok)
    {
      if rstack[ridx].kind.None? {
        ok := ReadType();
        if !ok { return; }
      }
      ok := ProcessTyped();
    }

    /** redisReaderGetReply: process items until the root reply is complete, the
        input runs out or a fault is found; drop consumed input in blocks. */
    method GetReply() returns (ok: bool, out: int)
      requires Valid()
      modifies this, rstack, buf
      ensures Valid() && ok == err.None? && (buf == old(buf) || buf == null)
      ensures Keeps(old(objs), old(Settled()), objs, Settled())
      ensures GoodSession(old(Abs()))
      ensures var r := Perform(old(Abs()), Op.GetReply);
              && Abs() == r.session
              && (r.replies == [] ==> out == NULL)
              && (r.replies != [] ==> Built(objs, out, |objs|, r.replies[0]) && Settled() == |objs|)
    {
      AbsIsGood();
      out := NULL;
      if err.Some? { return false, NULL; }
      if len == 0 {
        assert Rest() == [];
        return true, NULL;
      }
      if ridx == -1 { PushRoot(); }
      ok, out := ReadReply();
    }

    /** Process items, then hand out the reply if it is complete. */
    method ReadReply() returns (ok: bool, out: int)
      requires Valid() && err.None? && ridx >= 0 && Good(M())
      modifies this, rstack, buf
      ensures Valid() && ok == err.None? && (buf == old(buf) || buf == null)
      ensures Keeps(old(objs), old(Settled()), objs, Settled())
      ensures var r := Get(old(M()));
              && Abs() == r.session
              && (r.replies == [] ==> out == NULL)
              && (r.replies != [] ==> Built(objs, out, |objs|, r.replies[0]) && Settled() == |objs|)
    {
      RunItems();
      if err.Some? { return false, NULL; }
      out := Emit();
      return true, out;
    }

    /** Consumed input is discarded, and a complete reply is handed out. */
    method Emit() returns (out: int)
      requires Inv() && err.None? && (ridx == 0 ==> reply == NULL)
      modifies this, buf
      ensures objs == old(objs) && err == old(err) && buf == old(buf) && ridx == old(ridx)
      ensures Valid() && M() == old(M()) && Settled() == old(Settled())
      ensures out == if ridx == -1 then old(reply) else NULL
    {
      if pos >= 1024 { Compact(); }
      out := NULL;
      if ridx == -1 {
        out := reply;
        reply := NULL;
      }
    }

    /** The root task, for the first item of a reply. */
    method PushRoot()
      requires Valid() && err.None? && ridx == -1
      modifies this`ridx, rstack
      ensures Valid() && ridx == 0 && M() == old(M()) && Settled() == old(Settled())
    {
      rstack[0] := Task(None, -1, -1, NULL, NULL);
      ridx := 0;
    }

    /** The item loop of redisReaderGetReply. */
    method RunItems()
      requires Inv() && err.None? && ridx >= 0 && Good(M())
      modifies this, rstack
      ensures Inv() && Keeps(old(objs), old(Settled()), objs, Settled()) && (buf == old(buf) || buf == null)
      ensures ridx == 0 ==> old(ridx) == 0 && reply == old(reply)
      ensures Abs() == Get(old(M())).session
      ensures err.None? ==> (ridx == -1 <==> Get(old(M())).replies != [])
      ensures err.None? && ridx == -1 ==> Built(objs, reply, |objs|, Get(old(M())).replies[0])
      ensures err.Some? ==> Get(old(M())).replies == []
    {
      ghost var all := Get(M());
      while ridx >= 0
        invariant Inv() && err.None? && Good(M()) && buf == old(buf)
        invariant Keeps(old(objs), old(Settled()), objs, Settled())
        invariant ridx == 0 ==> old(ridx) == 0 && reply == old(reply)
        invariant ridx >= 0 ==> Get(M()) == all
        invariant ridx == -1 ==>
                    && all.session == Live(M())
                    && all.replies != [] && Built(objs, reply, |objs|, all.replies[0])
        decreases |Rest()|
      {
        ghost var m := Typed(M());
        var ok := ProcessItem();
        if !ok { return; }
        assert Good(M());
      }
    }

    /** Discarding consumed input leaves the machine where it was. */
    method Compact()
      requires Inv() && err.None?
      modifies this`pos, this`len, buf
      ensures Inv() && err.None? && M() == old(M()) && Settled() == old(Settled()) && pos == 0
    {
      ghost var rest := Rest();
      buf.Range(pos, -1);
      pos := 0;
      len := buf.len;
      assert Rest() == rest;
    }

    method SetKind(kind: Kind)
      requires Inv() && err.None? && ridx >= 0 && (kind.KArray? ==> ridx < MAX_DEPTH)
      modifies rstack
      ensures Inv() && err.None? && Settled() == old(Settled())
      ensures M() == State(stack, Some(kind), Rest())
    {
      ghost var tasks := rstack[..];
      rstack[ridx] := rstack[ridx].(kind := Some(kind));
      assert rstack[..] == tasks[ridx := tasks[ridx].(kind := Some(kind))];
      assert Spine(objs, rstack[..], ridx, NULL, stack) by {
        forall k | 0 <= k < ridx
          ensures Level(objs, rstack[..], ridx, NULL, k, stack[k])
        {
          assert Level(objs, tasks, ridx, NULL, k, stack[k]);
        }
      }
    }
  }

  /** The object of a reply that has no elements. */
  function LeafObj(v: Reply): Obj {
    match v
    case Str(t) => StrObj(KStr, t)
    case Status(t) => StrObj(KStatus, t)
    case Error(t) => StrObj(KError, t)
    case Integer(i) => IntObj(i)
    case Nil => NilObj
    case Array(_) => ArrObj([])
  }

  predicate IsLeaf(v: Reply) {
    v.Array? ==> v.element == []
  }

  /** The number read from the buffer is the number on the line before the CR. */
  lemma HeaderNumber(p: seq<Byte>, n: nat)
    requires n < |p| && p[n] == CR
    ensures LongLong(p) == LongLong(p[..n])
  {
    LongLongStopsAtCr(p[..n], p[n + 1..]);
    assert p == p[..n] + [CR] + p[n + 1..];
  }
}
