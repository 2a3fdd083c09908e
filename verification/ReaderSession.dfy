/** The reader used end to end: any interleaving of feeds and reply requests,
    followed by draining, on a real Reader object. */
module ReaderSession {
  import opened Bytes
  import opened Resp
  import opened Machine
  import opened ReplyObjects
  import opened Readers

  /** Emitted replies stay readable: their objects lie below the settled mark. */
  ghost predicate AllBuilt(objs: seq<Obj>, ids: seq<int>, ends: seq<int>, bound: int, rs: seq<Reply>) {
    && |ids| == |ends| == |rs|
    && forall i :: 0 <= i < |ids| ==> ends[i] <= bound && Built(objs, ids[i], ends[i], rs[i])
  }

  lemma AllBuiltFrame(objs: seq<Obj>, objs': seq<Obj>, ids: seq<int>, ends: seq<int>, bound: int, bound': int,
                      rs: seq<Reply>)
    requires AllBuilt(objs, ids, ends, bound, rs)
    requires bound <= |objs| && bound <= bound' <= |objs'|
    requires forall i :: 0 <= i < bound ==> objs[i] == objs'[i]
    ensures AllBuilt(objs', ids, ends, bound', rs)
  {
    forall i | 0 <= i < |ids|
      ensures Built(objs', ids[i], ends[i], rs[i])
    {
      BuiltFrame(objs, objs', ids[i], ends[i], rs[i]);
    }
  }

  lemma AllBuiltGrows(objs: seq<Obj>, ids: seq<int>, ends: seq<int>, rs: seq<Reply>, id: int, r: Reply)
    requires AllBuilt(objs, ids, ends, |objs|, rs) && Built(objs, id, |objs|, r)
    ensures AllBuilt(objs, ids + [id], ends + [|objs|], |objs|, rs + [r])
  {
  }

  /** The replies emitted so far, `got`, and those a session still holds are all
      the replies of the transcript, and the session will end with its fault. */
  ghost predicate OnTrack(got: seq<Reply>, left: Result, t: Transcript) {
    && got + left.replies == t.replies
    && t.fault == if left.session.Dead? then Some(left.session.fault) else None
  }

  lemma OnTrackAtStart(ops: seq<Op>)
    ensures OnTrack([], Total(Live(Fresh([])), ops), ParseAll(Stream(ops)))
  {
    AnyChunkingParsesTheStream(ops);
    var r := PerformAll(Live(Fresh([])), ops);
    assert [] + Total(Live(Fresh([])), ops).replies == Total(Live(Fresh([])), ops).replies;
  }

  lemma OnTrackMoves(got: seq<Reply>, new_: seq<Reply>, left: Result, t: Transcript)
    requires OnTrack(got, After(new_, left), t)
    ensures OnTrack(got + new_, left, t)
  {
    Assoc(got, new_, left.replies);
  }

  lemma OnTrackPerforms(got: seq<Reply>, s: Session, ops: seq<Op>, t: Transcript)
    requires GoodSession(s) && ops != [] && OnTrack(got, Total(s, ops), t)
    ensures var p := Perform(s, ops[0]); OnTrack(got + p.replies, Total(p.session, ops[1..]), t)
  {
    var p := Perform(s, ops[0]);
    TotalUnfolds(s, ops);
    OnTrackMoves(got, p.replies, Total(p.session, ops[1..]), t);
  }

  lemma OnTrackEnds(got: seq<Reply>, s: Session, t: Transcript)
    requires GoodSession(s) && OnTrack(got, Total(s, []), t)
    ensures OnTrack(got, DrainSession(s), t)
  {
    AfterNothing(DrainSession(s));
  }

  lemma OnTrackDrains(got: seq<Reply>, s: Session, t: Transcript)
    requires GoodSession(s) && OnTrack(got, DrainSession(s), t)
    ensures var p := Perform(s, Op.GetReply); OnTrack(got + p.replies, DrainSession(p.session), t)
  {
    var p := Perform(s, Op.GetReply);
    GetThenDrainSession(s);
    OnTrackMoves(got, p.replies, DrainSession(p.session), t);
  }

  class Log {
    var out: seq<int>
    ghost var ends: seq<int>
    ghost var got: seq<Reply>

    constructor ()
      ensures out == [] && ends == [] && got == []
    {
      out, ends, got := [], [], [];
    }

    ghost predicate Holds(r: Reader)
      requires r.Inv()
      reads this, r, r.rstack, r.buf
    {
      AllBuilt(r.objs, out, ends, r.Settled(), got)
    }

    /** Ask for one reply and log it if there is one. */
    method Get(r: Reader) returns (more: bool)
      requires r.Valid() && Holds(r)
      modifies this, r, r.rstack, r.buf
      ensures r.Valid() && Holds(r) && (r.buf == old(r.buf) || r.buf == null)
      ensures GoodSession(old(r.Abs()))
      ensures var p := Perform(old(r.Abs()), Op.GetReply);
              r.Abs() == p.session && got == old(got) + p.replies && more == (p.replies != [])
    {
      ghost var objs, bound := r.objs, r.Settled();
      ghost var s := r.Abs();
      var ok, id := r.GetReply();
      AllBuiltFrame(objs, r.objs, out, ends, bound, r.Settled(), got);
      ghost var p := Perform(s, Op.GetReply);
      more := id != NULL;
      if more {
        AllBuiltGrows(r.objs, out, ends, got, id, p.replies[0]);
        assert p.replies == [p.replies[0]];
        out, ends := out + [id], ends + [|r.objs|];
        got := got + p.replies;
      } else {
        assert got + [] == got;
      }
    }

    /** Perform one operation of a session. */
    method Do(r: Reader, op: Op)
      requires r.Valid() && Holds(r)
      modifies this, r, r.rstack, r.buf
      ensures r.Valid() && Holds(r) && (r.buf == old(r.buf) || r.buf == null || fresh(r.buf))
      ensures GoodSession(old(r.Abs())) && GoodSession(r.Abs())
      ensures r.Abs() == Perform(old(r.Abs()), op).session
      ensures got == old(got) + Perform(old(r.Abs()), op).replies
    {
      r.AbsIsGood();
      if op.Feed? {
        var _ := r.Feed(op.bytes);
      } else {
        var _ := Get(r);
      }
      r.AbsIsGood();
    }
  }

  /** Perform all operations of a session. */
  method PerformOps(r: Reader, log: Log, ops: seq<Op>, ghost t: Transcript)
    requires r.Valid() && log.Holds(r) && GoodSession(r.Abs())
    requires OnTrack(log.got, Total(r.Abs(), ops), t)
    modifies log, r, r.rstack, r.buf
    ensures r.Valid() && log.Holds(r) && GoodSession(r.Abs()) && (r.buf == old(r.buf) || r.buf == null || fresh(r.buf))
    ensures OnTrack(log.got, DrainSession(r.Abs()), t)
    decreases |ops|
  {
    if ops == [] {
      OnTrackEnds(log.got, r.Abs(), t);
    } else {
      OnTrackPerforms(log.got, r.Abs(), ops, t);
      log.Do(r, ops[0]);
      PerformOps(r, log, ops[1..], t);
    }
  }

  /** Whatever the chunking and wherever replies are asked for, the reader emits
      exactly the replies of the recursive parse of the whole input, each as a
      complete tree of objects, and ends with the same fault or none. */
  method ReadStream(ops: seq<Op>) returns (r: Reader, out: seq<int>)
    ensures fresh(r) && r.Valid()
    ensures |out| == |ParseAll(Stream(ops)).replies|
    ensures forall i :: 0 <= i < |out| ==> Denotes(r.objs, out[i], ParseAll(Stream(ops)).replies[i])
    ensures r.err == ParseAll(Stream(ops)).fault
  {
    r := new Reader();
    var log := new Log();
    ghost var t := ParseAll(Stream(ops));
    OnTrackAtStart(ops);
    PerformOps(r, log, ops, t);
    DrainReader(r, log, t);
    out := log.out;
    assert forall j :: 0 <= j < |out| ==> Built(r.objs, out[j], log.ends[j], log.got[j]);
  }

  /** Asking until nothing comes any more. */
  method DrainReader(r: Reader, log: Log, ghost t: Transcript)
    requires r.Valid() && log.Holds(r) && GoodSession(r.Abs())
    requires OnTrack(log.got, DrainSession(r.Abs()), t)
    modifies r, r.rstack, r.buf, log
    ensures r.Valid() && log.Holds(r)
    ensures log.got == t.replies && r.err == t.fault
  {
    var more := true;
    while more
      invariant r.Valid() && log.Holds(r) && GoodSession(r.Abs())
      invariant r.buf == old(r.buf) || r.buf == null
      invariant OnTrack(log.got, DrainSession(r.Abs()), t)
      invariant !more ==> DrainSession(r.Abs()) == Result(r.Abs(), [])
      decreases more, if r.err.None? then |r.Rest()| else 0
    {
      GetThenDrainSession(r.Abs());
      OnTrackDrains(log.got, r.Abs(), t);
      more := log.Get(r);
      r.AbsIsGood();
    }
  }

  lemma GetThenDrainSession(s: Session)
    requires GoodSession(s)
    ensures var p := Perform(s, Op.GetReply);
            && DrainSession(s) == After(p.replies, DrainSession(p.session))
            && (p.replies == [] ==> DrainSession(p.session) == Result(p.session, []))
            && (p.replies != [] ==> s.Live? && p.session.Live? && |p.session.m.rest| < |s.m.rest|)
  {
    if s.Live? {
      GetThenDrain(s.m, []);
      assert Append(s.m, []) == s.m;
      var g := Get(s.m);
      if g.replies != [] {
        GetShrinks(s.m);
      }
      if g.session.Live? {
        assert Append(g.session.m, []) == g.session.m;
        if g.replies == [] {
          GetWithoutReplyIsStuck(s.m);
        }
      }
    }
  }
}
