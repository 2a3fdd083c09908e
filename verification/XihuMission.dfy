/** The data a mission of the block client moves, step by step, as values: what the
    server, the message buffers and the caller's memory hold in every state. */
module XihuMission {
  import opened Bytes
  import opened XihuWindow

  type Block = seq<Byte>

  datatype MsgType = Read | Write

  /** CommonMsg and the block that follows it in a message buffer. */
  datatype Msg = Msg(kind: MsgType, bid: nat, data: Block)

  /** A block the server has never been given reads as the empty block. */
  function BlockAt(server: map<nat, Block>, b: nat): Block {
    if b in server then server[b] else []
  }

  /** A mission: requests on their way (`pending`), responses not yet handed over
      (`ready`), the block each buffer in flight carries, the blocks completed. */
  datatype Mission = Mission(
    kind: MsgType, bid: nat, tot: nat,
    reqs: seq<Msg>, resps: seq<Msg>, server: map<nat, Block>, mem: seq<Block>,
    pending: set<int>, ready: set<int>, owner: map<int, nat>, done: set<nat>)

  /** Buffer `k` is in flight with its own request, for a block not done yet. */
  ghost predicate Carries(m: Mission, k: int) {
    && k in m.owner && 0 <= k < |m.reqs| == |m.resps| == MSG_BUFFER_NUM
    && m.owner[k] < m.tot <= |m.mem| && m.owner[k] !in m.done
    && m.reqs[k].kind == m.kind && m.reqs[k].bid == Id(m.bid, m.owner[k])
  }

  ghost predicate Requests(m: Mission) {
    && |m.reqs| == |m.resps| == MSG_BUFFER_NUM && m.tot <= |m.mem|
    && m.pending !! m.ready && m.pending + m.ready == m.owner.Keys
    && (forall s :: s in m.done ==> s < m.tot)
    && (forall k {:trigger Carries(m, k)} :: k in m.owner ==> Carries(m, k))
    && (forall k, k' {:trigger m.owner[k], m.owner[k']} ::
          k in m.owner && k' in m.owner && k != k' ==> m.owner[k] != m.owner[k'])
  }

  /** The block of a request on its way: a write carries it in the buffer. */
  ghost predicate PendingOk(m: Mission, k: int) {
    Carries(m, k) && (m.kind == Write ==> m.reqs[k].data == m.mem[m.owner[k]])
  }

  /** The block of an answered request: stored on the server by a write, in the
      response buffer under its own id for a read. */
  ghost predicate ReadyOk(m: Mission, k: int) {
    && Carries(m, k)
    && var b := Id(m.bid, m.owner[k]);
       if m.kind == Write then BlockAt(m.server, b) == m.mem[m.owner[k]]
       else m.resps[k].bid == b && m.resps[k].data == BlockAt(m.server, b)
  }

  /** A completed block is the same in memory and on the server. */
  ghost predicate DoneOk(m: Mission, s: nat) {
    s < |m.mem| && m.mem[s] == BlockAt(m.server, Id(m.bid, s))
  }

  /** What the code needs of a mission: distinct ids, and for a read, whose
      answers are placed by their ids, ids that are not truncated. */
  ghost predicate Sound(m: Mission) {
    m.tot <= UINT32 && (m.kind == Read && m.tot > 0 ==> m.bid + m.tot <= UINT32)
  }

  ghost predicate Good(m: Mission) {
    && Requests(m) && Sound(m)
    && (forall k {:trigger PendingOk(m, k)} :: k in m.pending ==> PendingOk(m, k))
    && (forall k {:trigger ReadyOk(m, k)} :: k in m.ready ==> ReadyOk(m, k))
    && (forall s {:trigger DoneOk(m, s)} :: s in m.done ==> DoneOk(m, s))
  }

  // ----- The three kinds of step -----

  /** Request block `s` with the free buffer `k`. */
  function IssueStep(m: Mission, k: int, s: nat): Mission
    requires 0 <= k < |m.reqs| && s < |m.mem|
  {
    m.(reqs := m.reqs[k := Msg(m.kind, Id(m.bid, s), if m.kind == Write then m.mem[s] else [])],
       pending := m.pending + {k}, owner := m.owner[k := s])
  }

  /** The server handles the request in buffer `k` and echoes its block id. */
  function ServeStep(m: Mission, k: int): Mission
    requires 0 <= k < |m.reqs| && |m.resps| == |m.reqs|
  {
    var q := m.reqs[k];
    var moved := m.(pending := m.pending - {k}, ready := m.ready + {k});
    if q.kind == Write then
      moved.(server := m.server[q.bid := q.data], resps := m.resps[k := Msg(Write, q.bid, [])])
    else
      moved.(resps := m.resps[k := Msg(Read, q.bid, BlockAt(m.server, q.bid))])
  }

  /** The continuation runs for buffer `k`; a read copies the block to the place
      its id selects. */
  function FinishStep(m: Mission, k: int): Mission
    requires k in m.owner && 0 <= k < |m.resps|
    requires m.kind == Read ==> 0 <= m.resps[k].bid - m.bid < |m.mem|
  {
    var base := m.(ready := m.ready - {k}, owner := m.owner - {k}, done := m.done + {m.owner[k]});
    if m.kind == Write then base else base.(mem := m.mem[m.resps[k].bid - m.bid := m.resps[k].data])
  }

  /** Block id `b` belongs to no block of the mission. */
  ghost predicate Outside(m: Mission, b: nat) {
    forall s: nat {:trigger Id(m.bid, s)} :: s < m.tot ==> Id(m.bid, s) != b
  }

  // ----- Where the blocks of a read go -----

  /** Block `s` of a read has been requested with buffer `k` and answered. */
  function Answered(m: Mission, k: int, s: nat): Mission
    requires 0 <= k < |m.reqs| == |m.resps| && s < |m.mem|
  {
    ServeStep(IssueStep(m, k, s), k)
  }

  /** Its id selects its own place in the caller's buffer. */
  predicate Lands(m: Mission, k: int, s: nat)
    requires 0 <= k < |m.reqs| == |m.resps| && s < |m.mem|
  {
    Answered(m, k, s).resps[k].bid - m.bid == s
  }

  /** Exactly then, below 2^32, the continuation stores the right block there. */
  lemma ReadLandsIff(m: Mission, k: int, s: nat)
    requires m.kind == Read && 0 <= k < |m.reqs| == |m.resps| && s < |m.mem|
    ensures Lands(m, k, s) <==> m.bid + s < UINT32
    ensures Lands(m, k, s) ==>
              && FinishStep.requires(Answered(m, k, s), k)
              && FinishStep(Answered(m, k, s), k).mem == m.mem[s := BlockAt(m.server, m.bid + s)]
    ensures !Lands(m, k, s) && s < UINT32 ==> !FinishStep.requires(Answered(m, k, s), k)
  {
    assert Answered(m, k, s).resps[k].bid == Id(m.bid, s);
  }

  /** A read is exact if and only if it ends at or below block 2^32. */
  lemma ReadIsExactIff(m: Mission, k: int)
    requires m.kind == Read && 0 <= k < |m.reqs| == |m.resps| && m.tot <= |m.mem|
    ensures (forall s: nat :: s < m.tot ==> Lands(m, k, s)) <==> Sound(m)
  {
    forall s: nat | s < m.tot
      ensures Lands(m, k, s) <==> m.bid + s < UINT32
    {
      ReadLandsIff(m, k, s);
    }
    if m.tot > 0 && m.bid + m.tot > UINT32 {
      assert !Lands(m, k, m.tot - 1);
    }
  }

  /** A mission that goes wrong: the second block of two from the last 32-bit id
      would be copied in front of the caller's buffer. */
  lemma ReadGoesWrong(m: Mission, k: int)
    requires m.kind == Read && m.bid == UINT32 - 1 && |m.mem| == 2 && 0 <= k < |m.reqs| == |m.resps|
    ensures Answered(m, k, 1).resps[k].bid - m.bid < 0 && !FinishStep.requires(Answered(m, k, 1), k)
  {
    assert Trunc(UINT32) == 0;
  }

  lemma IssueIsGood(m: Mission, k: int, s: nat)
    requires Good(m) && 0 <= k < MSG_BUFFER_NUM && k !in m.owner
    requires s < m.tot && s !in m.done
    requires forall q :: q in m.owner ==> m.owner[q] != s
    ensures Good(IssueStep(m, k, s))
  {
    var m' := IssueStep(m, k, s);
    forall q | q in m'.owner
      ensures Carries(m', q)
    {
      assert q != k ==> Carries(m, q);
    }
    forall q | q in m'.pending
      ensures PendingOk(m', q)
    {
      assert q != k ==> PendingOk(m, q);
    }
    forall q | q in m'.ready
      ensures ReadyOk(m', q)
    {
      assert ReadyOk(m, q);
    }
    forall d | d in m'.done
      ensures DoneOk(m', d)
    {
      assert DoneOk(m, d);
    }
  }

  lemma ServeKeepsReady(m: Mission, k: int, q: int)
    requires Good(m) && Carries(m, k) && q in m.ready && q != k
    ensures ReadyOk(ServeStep(m, k), q)
  {
    assert ReadyOk(m, q) && m.owner[q] != m.owner[k];
    IdsDiffer(m.bid, m.tot, m.owner[q], m.owner[k]);
  }

  lemma ServeKeepsDone(m: Mission, k: int, d: nat)
    requires Good(m) && Carries(m, k) && d in m.done
    ensures DoneOk(ServeStep(m, k), d)
  {
    assert DoneOk(m, d) && m.owner[k] != d;
    IdsDiffer(m.bid, m.tot, d, m.owner[k]);
  }

  lemma ServeIsGood(m: Mission, k: int)
    requires Good(m) && k in m.pending
    ensures Carries(m, k) && Good(ServeStep(m, k))
    ensures m.kind == Read ==> ServeStep(m, k).server == m.server
    ensures forall b: nat :: Outside(m, b) ==> BlockAt(ServeStep(m, k).server, b) == BlockAt(m.server, b)
  {
    assert PendingOk(m, k);
    var m' := ServeStep(m, k);
    forall q | q in m'.owner
      ensures Carries(m', q)
    {
      assert Carries(m, q);
    }
    forall q | q in m'.pending
      ensures PendingOk(m', q)
    {
      assert PendingOk(m, q);
    }
    forall q | q in m'.ready
      ensures ReadyOk(m', q)
    {
      if q != k { ServeKeepsReady(m, k, q); }
    }
    forall d | d in m'.done
      ensures DoneOk(m', d)
    {
      ServeKeepsDone(m, k, d);
    }
  }

  lemma FinishIsGood(m: Mission, k: int)
    requires Good(m) && k in m.ready
    ensures Carries(m, k) && (m.kind == Read ==> m.resps[k].bid - m.bid == m.owner[k])
    ensures Good(FinishStep(m, k))
    ensures forall i :: m.tot <= i < |m.mem| ==> FinishStep(m, k).mem[i] == m.mem[i]
    ensures m.kind == Write ==> FinishStep(m, k).mem == m.mem
  {
    assert ReadyOk(m, k);
    var m' := FinishStep(m, k);
    forall q | q in m'.owner
      ensures Carries(m', q)
    {
      assert Carries(m, q) && m.owner[q] != m.owner[k];
    }
    forall q | q in m'.pending
      ensures PendingOk(m', q)
    {
      assert PendingOk(m, q);
    }
    forall q | q in m'.ready
      ensures ReadyOk(m', q)
    {
      assert ReadyOk(m, q);
    }
    forall d | d in m'.done
      ensures DoneOk(m', d)
    {
      assert d != m.owner[k] ==> DoneOk(m, d);
    }
  }

  // ----- The whole client state -----

  /** The counters of the client beside the data of its mission. */
  datatype Client = Client(m: Mission, avail: seq<int>, nxt: nat, pip: nat, issued: nat)

  /** What holds in every state of a mission. The number of requests in flight is
      what has been issued less what has come back, and never exceeds the window. */
  ghost predicate Ok(c: Client) {
    && Good(c.m) && Pool(c.avail, c.m.owner) && Window(c.m.owner, c.m.done, c.issued)
    && c.pip == Min(PIPLINE_PKT_DEPTH, c.m.tot)
    && c.nxt == c.pip + |c.m.done| && c.issued <= c.m.tot && |c.m.owner| <= c.pip
    && c.m.tot + c.pip <= UINT32
  }

  /** As many blocks have been requested as the window allows. */
  ghost predicate Full(c: Client) {
    c.issued == Min(c.nxt, c.m.tot)
  }

  /** Request the next block of the mission with the first free buffer. */
  function Issued(c: Client): Client
    requires c.avail != [] && 0 <= c.avail[0] < |c.m.reqs| && c.issued < |c.m.mem|
  {
    Client(IssueStep(c.m, c.avail[0], c.issued), c.avail[1..], c.nxt, c.pip, c.issued + 1)
  }

  function Served(c: Client, k: int): Client
    requires 0 <= k < |c.m.reqs| && |c.m.resps| == |c.m.reqs|
  {
    c.(m := ServeStep(c.m, k))
  }

  /** The continuation up to the point where it looks for the next block. */
  function Finished(c: Client, k: int): Client
    requires k in c.m.owner && 0 <= k < |c.m.resps|
    requires c.m.kind == Read ==> 0 <= c.m.resps[k].bid - c.m.bid < |c.m.mem|
  {
    Client(FinishStep(c.m, k), c.avail + [k], c.nxt + 1, c.pip, c.issued)
  }

  ghost predicate CanIssue(c: Client) {
    Ok(c) && c.issued < c.m.tot && |c.m.owner| < c.pip
  }

  lemma FirstIsFree(c: Client)
    requires CanIssue(c)
    ensures c.avail != [] && 0 <= c.avail[0] < |c.m.reqs| && c.issued < |c.m.mem| && c.avail[0] !in c.m.owner
  {
  }

  lemma IssuedPool(c: Client)
    requires CanIssue(c) && Issued.requires(c) && c.avail[0] !in c.m.owner
    ensures Pool(Issued(c).avail, Issued(c).m.owner)
  {
    TakeBuffer(c.avail, c.m.owner, c.issued);
  }

  lemma IssuedWindow(c: Client)
    requires CanIssue(c) && Issued.requires(c) && c.avail[0] !in c.m.owner
    ensures Window(Issued(c).m.owner, Issued(c).m.done, Issued(c).issued)
  {
    IssueBlock(c.m.owner, c.m.done, c.issued, c.avail[0]);
  }

  lemma IssuedGood(c: Client)
    requires CanIssue(c) && Issued.requires(c) && c.avail[0] !in c.m.owner
    ensures Good(Issued(c).m)
  {
    IssueIsGood(c.m, c.avail[0], c.issued);
  }

  lemma IssuedIsOk(c: Client)
    requires CanIssue(c)
    ensures Issued.requires(c) && Ok(Issued(c))
  {
    FirstIsFree(c);
    IssuedPool(c);
    IssuedWindow(c);
    IssuedGood(c);
  }

  /** Requesting a block leaves every buffer in flight as it is. */
  lemma IssuedLeavesOthers(c: Client, k: int)
    requires CanIssue(c) && k in c.m.owner
    ensures Issued.requires(c) && k in Issued(c).m.owner && Issued(c).m.owner[k] == c.m.owner[k]
    ensures 0 <= k < |c.m.reqs| && Issued(c).m.reqs[k] == c.m.reqs[k]
  {
    FirstIsFree(c);
    assert Carries(c.m, k);
  }

  lemma ServedIsOk(c: Client, k: int)
    requires Ok(c) && k in c.m.pending
    ensures Carries(c.m, k) && Ok(Served(c, k))
  {
    ServeIsGood(c.m, k);
  }

  lemma FinishedPool(c: Client, k: int)
    requires Ok(c) && k in c.m.owner && Finished.requires(c, k)
    ensures Pool(Finished(c, k).avail, Finished(c, k).m.owner)
  {
    GiveBuffer(c.avail, c.m.owner, k);
  }

  lemma FinishedWindow(c: Client, k: int)
    requires Ok(c) && k in c.m.owner && Finished.requires(c, k)
    ensures Window(Finished(c, k).m.owner, Finished(c, k).m.done, Finished(c, k).issued)
    ensures |Finished(c, k).m.owner| == |c.m.owner| - 1 && |Finished(c, k).m.done| == |c.m.done| + 1
  {
    FinishBlock(c.m.owner, c.m.done, c.issued, k);
    var owner' := c.m.owner - {k};
    assert c.m.owner == owner'[k := c.m.owner[k]];
    assert c.m.owner[k] !in c.m.done;
  }

  lemma FinishedGood(c: Client, k: int)
    requires Ok(c) && k in c.m.ready
    ensures Carries(c.m, k) && Finished.requires(c, k) && Good(Finished(c, k).m)
    ensures c.m.kind == Read ==> c.m.resps[k].bid - c.m.bid == c.m.owner[k]
  {
    FinishIsGood(c.m, k);
  }

  /** A continuation keeps the invariant and leaves room in the window; the next
      block to request, if any is left, is the one its counter names. */
  lemma FinishedIsOk(c: Client, k: int)
    requires Ok(c) && Full(c) && k in c.m.ready
    ensures Carries(c.m, k) && Finished.requires(c, k)
    ensures Ok(Finished(c, k)) && |Finished(c, k).m.owner| < c.pip
    ensures NextBlock(c.nxt, c.m.tot) == if c.nxt < c.m.tot then Some(c.issued) else None
    ensures c.nxt < c.m.tot ==> c.issued == c.nxt
    ensures c.nxt >= c.m.tot ==> Full(Finished(c, k))
  {
    FinishedGood(c, k);
    FinishedPool(c, k);
    FinishedWindow(c, k);
  }

  /** The whole continuation: after the first part, the block its counter names is
      requested, or nothing is left to request. */
  lemma ContinuationIsOk(c: Client, k: int)
    requires Ok(c) && Full(c) && k in c.m.ready
    ensures Finished.requires(c, k)
    ensures var f, next := Finished(c, k), NextBlock(c.nxt, c.m.tot);
            if next.None? then Ok(f) && Full(f)
            else next.value == f.issued && Issued.requires(f) && Ok(Issued(f)) && Full(Issued(f))
  {
    FinishedIsOk(c, k);
    var f := Finished(c, k);
    if NextBlock(c.nxt, c.m.tot).Some? {
      IssuedIsOk(f);
    }
  }

  /** A mission that goes wrong: with 2^32 - 1 blocks, all of them requested, the
      counter wraps and the continuation requests block 0 a second time. */
  lemma CounterGoesWrong(c: Client)
    requires c.m.tot == UINT32 - 1 && c.nxt == UINT32
    requires Window(c.m.owner, c.m.done, c.issued) && c.issued == c.m.tot
    ensures NextBlock(c.nxt, c.m.tot) == Some(0) && (0 in c.m.done || InFlight(c.m.owner, 0))
  {
    assert Trunc(UINT32) == 0;
  }

  /** The wait loop ends exactly when every block has come back. */
  lemma WaitEnds(c: Client)
    requires Ok(c) && Full(c)
    ensures c.nxt <= c.m.tot + c.pip
    ensures c.nxt == c.m.tot + c.pip <==> c.m.owner == map[]
    ensures c.m.owner == map[] ==>
              c.m.pending == c.m.ready == {} && forall s :: 0 <= s < c.m.tot ==> DoneOk(c.m, s)
  {
    assert |c.m.owner| + |c.m.done| == c.issued;
    if c.nxt == c.m.tot + c.pip {
      AllDone(c.m.owner, c.m.done, c.issued);
    }
    if c.m.owner == map[] {
      assert |c.m.done| == c.issued;
      AllDone(c.m.owner, c.m.done, c.issued);
    }
  }

  /** In every state of the wait, exactly what was issued and has not come back is
      in flight: at most a window, and the rest of the pool is free. */
  lemma InFlightCount(c: Client)
    requires Ok(c) && Full(c)
    ensures |c.m.owner| == (if c.nxt < c.m.tot then c.nxt else c.m.tot) - (c.nxt - c.pip) <= 30
    ensures c.pip == if c.m.tot < 30 then c.m.tot else 30
    ensures |c.avail| == 50 - |c.m.owner| >= 20
    ensures |c.m.pending| + |c.m.ready| == |c.m.owner|
  {
    assert |c.m.pending + c.m.ready| == |c.m.pending| + |c.m.ready|;
    assert |c.m.owner.Keys| == |c.m.owner|;
  }

  lemma SomethingToDo(c: Client)
    requires Ok(c) && c.m.owner != map[]
    ensures c.m.pending != {} || c.m.ready != {}
  {
    assert c.m.owner.Keys != {};
  }

  /** What a mission never changes: server blocks outside its range, the server at
      all when it reads, the caller's memory outside its range, or at all when it writes. */
  ghost predicate Untouched(c: Client, server0: map<nat, Block>, mem0: seq<Block>) {
    && |c.m.mem| == |mem0|
    && (c.m.kind == Read ==> c.m.server == server0)
    && (c.m.kind == Write ==> c.m.mem == mem0)
    && (forall b: nat :: Outside(c.m, b) ==> BlockAt(c.m.server, b) == BlockAt(server0, b))
    && (forall i :: c.m.tot <= i < |mem0| ==> c.m.mem[i] == mem0[i])
  }

  lemma ServedTouches(c: Client, k: int, server0: map<nat, Block>, mem0: seq<Block>)
    requires Ok(c) && k in c.m.pending && Untouched(c, server0, mem0)
    ensures Served.requires(c, k) && Untouched(Served(c, k), server0, mem0)
    ensures |Served(c, k).m.pending| < |c.m.pending|
  {
    ServeIsGood(c.m, k);
  }

  lemma FinishedTouches(c: Client, k: int, server0: map<nat, Block>, mem0: seq<Block>)
    requires Ok(c) && k in c.m.ready && Untouched(c, server0, mem0)
    ensures Finished.requires(c, k) && Untouched(Finished(c, k), server0, mem0)
  {
    FinishIsGood(c.m, k);
  }

  // ----- Phases of a mission -----

  /** Filling the window: nothing has come back yet. */
  ghost predicate Filling(c: Client, server0: map<nat, Block>, mem0: seq<Block>) {
    Ok(c) && Untouched(c, server0, mem0) && c.nxt == c.pip && |c.m.owner| == c.issued <= c.pip
  }

  /** Waiting: the window is full and the event loop runs. */
  ghost predicate WaitingFor(c: Client, server0: map<nat, Block>, mem0: seq<Block>) {
    Ok(c) && Full(c) && Untouched(c, server0, mem0)
  }

  lemma StartFilling(c: Client)
    requires Pool(c.avail, c.m.owner) && c.m.owner == map[] && c.m.pending == c.m.ready == {}
    requires |c.m.reqs| == |c.m.resps| == MSG_BUFFER_NUM && c.m.tot <= |c.m.mem|
    requires c.m.done == {} && c.issued == 0 && c.nxt == c.pip == Min(PIPLINE_PKT_DEPTH, c.m.tot)
    requires Sound(c.m) && c.m.tot + c.pip <= UINT32
    ensures Filling(c, c.m.server, c.m.mem)
  {
  }

  lemma FillOne(c: Client, server0: map<nat, Block>, mem0: seq<Block>)
    requires Filling(c, server0, mem0) && c.issued < c.pip
    ensures Issued.requires(c) && Filling(Issued(c), server0, mem0) && Issued(c).issued == c.issued + 1
  {
    IssuedIsOk(c);
  }

  lemma WindowIsFull(c: Client, server0: map<nat, Block>, mem0: seq<Block>)
    requires Filling(c, server0, mem0) && c.issued == c.pip
    ensures WaitingFor(c, server0, mem0)
  {
  }

  /** At the end of the wait every block of the mission is the same in memory and
      on the server, and every buffer is free. */
  lemma MissionEnds(c: Client, server0: map<nat, Block>, mem0: seq<Block>)
    requires WaitingFor(c, server0, mem0) && c.nxt >= c.m.tot + c.pip
    ensures c.m.owner == map[] && c.m.pending == c.m.ready == {} && Untouched(c, server0, mem0)
    ensures Pool(c.avail, c.m.owner) && |c.m.reqs| == |c.m.resps| == MSG_BUFFER_NUM
    ensures c.m.tot <= |c.m.mem|
    ensures forall s {:trigger c.m.mem[s]} :: 0 <= s < c.m.tot ==> c.m.mem[s] == BlockAt(c.m.server, Id(c.m.bid, s))
  {
    WaitEnds(c);
    forall s | 0 <= s < c.m.tot
      ensures c.m.mem[s] == BlockAt(c.m.server, Id(c.m.bid, s))
    {
      assert DoneOk(c.m, s);
    }
  }
}
