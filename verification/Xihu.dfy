/** The pipelined block client of db/xihu_client.h: a window of at most 30 requests
    over a pool of 50 message buffers. The network answers and completes requests
    in any order. */
module XihuClients {
  import opened Bytes
  import opened XihuWindow
  import opened XihuMission

  /** The request counter of a mission stays within 32 bits. */
  predicate CounterFits(len: nat) {
    len + Min(PIPLINE_PKT_DEPTH, len) <= UINT32
  }

  class XihuClient {
    // The mission record `ms`.
    var kind: MsgType
    var bid: nat
    var nxt: nat
    var tot: nat
    var pip: nat
    /** The caller's buffer, one block per element. */
    var mem: array<Block>
    // Message buffers and the queue of free ones.
    var reqs: seq<Msg>
    var resps: seq<Msg>
    var avail: seq<int>
    // The network and the server.
    var pending: set<int>
    var ready: set<int>
    var server: map<nat, Block>
    // For reasoning: the block each buffer in flight carries, the blocks
    // completed, and the number of blocks requested so far.
    ghost var owner: map<int, nat>
    ghost var done: set<nat>
    ghost var issued: nat

    ghost function View(): Client
      reads this, mem
    {
      Client(Mission(kind, bid, tot, reqs, resps, server, mem[..], pending, ready, owner, done),
             avail, nxt, pip, issued)
    }

    /** No request is in flight and all buffers are free. */
    ghost predicate Idle()
      reads this
    {
      && Pool(avail, owner) && owner == map[] && pending == ready == {}
      && |reqs| == |resps| == MSG_BUFFER_NUM
    }

    constructor ()
      ensures Idle() && server == map[]
    {
      var blank := Msg(Read, 0, []);
      reqs := seq(MSG_BUFFER_NUM, _ => blank);
      resps := seq(MSG_BUFFER_NUM, _ => blank);
      avail := seq(MSG_BUFFER_NUM, i => i);
      pending, ready, server := {}, {}, map[];
      kind, bid, nxt, tot, pip := Read, 0, 0, 0, 0;
      mem := new Block[0];
      owner, done, issued := map[], {}, 0;
      new;
      AllFree(avail);
    }

    /** Take the first free buffer, fill in the request for block `s` and enqueue it. */
    method Issue(s: nat)
      requires Issued.requires(View()) && s == issued
      modifies this`avail, this`reqs, this`pending, this`owner, this`issued
      ensures View() == Issued(old(View()))
    {
      ghost var src := mem[..];
      var k := avail[0];
      avail := avail[1..];
      reqs := reqs[k := Msg(kind, Id(bid, s), if kind == Write then mem[s] else [])];
      pending := pending + {k};
      owner := owner[k := s];
      issued := issued + 1;
      assert mem[..] == src;
    }

    /** The server handles request `k`: it stores or looks up the block and echoes the id. */
    method Serve(k: int)
      requires Served.requires(View(), k)
      modifies this`pending, this`ready, this`resps, this`server
      ensures View() == Served(old(View()), k)
    {
      ghost var src := mem[..];
      var q := reqs[k];
      pending := pending - {k};
      ready := ready + {k};
      if q.kind == Write {
        server := server[q.bid := q.data];
        resps := resps[k := Msg(Write, q.bid, [])];
      } else {
        resps := resps[k := Msg(Read, q.bid, BlockAt(server, q.bid))];
      }
      assert mem[..] == src;
    }

    /** The first part of cont_func: the buffer goes back to the pool, the counter
        moves on, and a read block is copied to the place its id selects. */
    method Take(k: int)
      requires Finished.requires(View(), k)
      modifies this`avail, this`nxt, this`ready, this`owner, this`done, mem
      ensures View() == Finished(old(View()), k)
    {
      ghost var src := mem[..];
      avail := avail + [k];
      nxt := nxt + 1;
      ready := ready - {k};
      done := done + {owner[k]};
      owner := owner - {k};
      if kind == Read {
        mem[resps[k].bid - bid] := resps[k].data;
        assert mem[..] == src[resps[k].bid - bid := resps[k].data];
      } else {
        assert mem[..] == src;
      }
    }

    /** cont_func: after the first part, the next block of the mission is requested
        if there is one. */
    method ContFunc(k: int)
      requires Ok(View()) && Full(View()) && k in ready
      modifies this`avail, this`nxt, this`ready, this`owner, this`done, this`reqs, this`pending, this`issued, mem
      ensures Ok(View()) && Full(View()) && nxt == old(nxt) + 1
      ensures Finished.requires(old(View()), k) && View().m.mem == Finished(old(View()), k).m.mem
    {
      ContinuationIsOk(View(), k);
      var next := NextBlock(nxt, tot);
      Take(k);
      if next.Some? {
        Issue(next.value);
      }
    }

    /** The network lets the server handle some request. */
    method ServeSome(ghost server0: map<nat, Block>, ghost mem0: seq<Block>)
      requires WaitingFor(View(), server0, mem0) && pending != {}
      modifies this`pending, this`ready, this`resps, this`server
      ensures WaitingFor(View(), server0, mem0) && |pending| < |old(pending)|
    {
      var k := Pick(pending);
      ServedIsOk(View(), k);
      ServedTouches(View(), k, server0, mem0);
      Serve(k);
    }

    /** The network delivers some response. */
    method DeliverSome(ghost server0: map<nat, Block>, ghost mem0: seq<Block>)
      requires WaitingFor(View(), server0, mem0) && ready != {}
      modifies this`avail, this`nxt, this`ready, this`owner, this`done, this`reqs, this`pending, this`issued, mem
      ensures WaitingFor(View(), server0, mem0) && nxt == old(nxt) + 1
    {
      var k := Pick(ready);
      FinishedTouches(View(), k, server0, mem0);
      ContFunc(k);
    }

    /** One event of run_event_loop_once: the server handles some request, or the
        continuation of some answered request runs. */
    method Event(ghost server0: map<nat, Block>, ghost mem0: seq<Block>)
      requires WaitingFor(View(), server0, mem0) && owner != map[]
      modifies this`avail, this`nxt, this`ready, this`owner, this`done, this`reqs, this`pending, this`issued,
               this`resps, this`server, mem
      ensures WaitingFor(View(), server0, mem0)
      ensures (nxt == old(nxt) && |pending| < |old(pending)|) || nxt == old(nxt) + 1
    {
      SomethingToDo(View());
      var serve: bool := *;
      if pending != {} && (serve || ready == {}) {
        ServeSome(server0, mem0);
      } else {
        DeliverSome(server0, mem0);
      }
    }

    /** Set up the mission record. */
    method Begin(kind: MsgType, blockID: nat, len: nat, buf: array<Block>)
      requires Idle() && len <= buf.Length
      requires CounterFits(len) && (kind == Read && len > 0 ==> blockID + len <= UINT32)
      modifies this`kind, this`bid, this`tot, this`mem, this`nxt, this`pip, this`done, this`issued
      ensures Filling(View(), server, buf[..]) && issued == 0
      ensures mem == buf && this.kind == kind && bid == blockID && tot == len
    {
      ghost var image := buf[..];
      this.kind, tot, bid, mem := kind, len, blockID, buf;
      pip := Min(PIPLINE_PKT_DEPTH, len);
      nxt := pip;
      done, issued := {}, 0;
      ghost var c := View();
      assert c.m.mem == image;
      StartFilling(c);
    }

    /** The issue loop: as many requests as the window holds. */
    method FillWindow(ghost server0: map<nat, Block>, ghost mem0: seq<Block>)
      requires Filling(View(), server0, mem0) && issued == 0
      modifies this`avail, this`reqs, this`pending, this`owner, this`issued
      ensures WaitingFor(View(), server0, mem0)
    {
      var i := 0;
      while i < nxt
        invariant i == issued <= pip == nxt
        invariant Filling(View(), server0, mem0)
      {
        FillOne(View(), server0, mem0);
        Issue(i);
        i := i + 1;
      }
      WindowIsFull(View(), server0, mem0);
    }

    /** The wait loop. */
    method Wait(ghost server0: map<nat, Block>, ghost mem0: seq<Block>)
      requires WaitingFor(View(), server0, mem0)
      modifies this`avail, this`nxt, this`ready, this`owner, this`done, this`reqs, this`pending, this`issued,
               this`resps, this`server, mem
      ensures WaitingFor(View(), server0, mem0) && nxt >= tot + pip
    {
      while nxt < tot + pip
        invariant WaitingFor(View(), server0, mem0)
        decreases tot + pip - nxt, |pending|
      {
        WaitEnds(View());
        Event(server0, mem0);
      }
    }

    /** The body shared by read and write: set up the mission, fill the window, and
        run the event loop until the counter says that everything has come back. */
    method Run(kind: MsgType, blockID: nat, len: nat, buf: array<Block>)
      requires Idle() && len <= buf.Length
      requires CounterFits(len) && (kind == Read && len > 0 ==> blockID + len <= UINT32)
      modifies this, buf
      ensures WaitingFor(View(), old(server), old(buf[..])) && nxt >= tot + pip
      ensures mem == buf && this.kind == kind && bid == blockID && tot == len
    {
      ghost var server0, mem0 := server, buf[..];
      Begin(kind, blockID, len, buf);
      Fly(server0, mem0);
    }

    method Fly(ghost server0: map<nat, Block>, ghost mem0: seq<Block>)
      requires Filling(View(), server0, mem0) && issued == 0
      modifies this`avail, this`nxt, this`ready, this`owner, this`done, this`reqs, this`pending, this`issued,
               this`resps, this`server, mem
      ensures WaitingFor(View(), server0, mem0) && nxt >= tot + pip
    {
      FillWindow(server0, mem0);
      Wait(server0, mem0);
    }

    method Transfer(kind: MsgType, blockID: nat, len: nat, buf: array<Block>)
      requires Idle() && len <= buf.Length
      requires CounterFits(len) && (kind == Read && len > 0 ==> blockID + len <= UINT32)
      modifies this, buf
      ensures Idle() && mem == buf && Untouched(View(), old(server), old(buf[..]))
      ensures this.kind == kind && bid == blockID && tot == len
      ensures forall s :: 0 <= s < len ==> buf[s] == BlockAt(server, Id(blockID, s))
    {
      Run(kind, blockID, len, buf);
      ghost var c := View();
      MissionEnds(c, old(server), old(buf[..]));
      forall s | 0 <= s < len
        ensures buf[s] == BlockAt(server, Id(blockID, s))
      {
        assert c.m.mem[s] == buf[s];
      }
    }

    /** XihuClient::write: afterwards the server holds the caller's blocks, each
        under its 32-bit id, and nothing else has changed. */
    method WriteBlocks(blockID: nat, len: nat, srcBuf: array<Block>)
      requires Idle() && len <= srcBuf.Length && CounterFits(len)
      modifies this, srcBuf
      ensures Idle() && srcBuf[..] == old(srcBuf[..])
      ensures forall s :: 0 <= s < len ==> BlockAt(server, Id(blockID, s)) == srcBuf[s]
      ensures forall b: nat :: (forall s: nat :: s < len ==> Id(blockID, s) != b) ==>
                BlockAt(server, b) == BlockAt(old(server), b)
    {
      Transfer(Write, blockID, len, srcBuf);
    }

    /** XihuClient::read: afterwards the caller's buffer holds the server's blocks
        in order, and nothing else has changed. */
    method ReadBlocks(blockID: nat, len: nat, dstBuf: array<Block>)
      requires Idle() && len <= dstBuf.Length && CounterFits(len) && (len > 0 ==> blockID + len <= UINT32)
      modifies this, dstBuf
      ensures Idle() && server == old(server)
      ensures forall s :: 0 <= s < len ==> dstBuf[s] == BlockAt(server, blockID + s)
      ensures forall i :: len <= i < dstBuf.Length ==> dstBuf[i] == old(dstBuf[i])
    {
      Transfer(Read, blockID, len, dstBuf);
      assert forall i :: len <= i < dstBuf.Length ==> View().m.mem[i] == old(dstBuf[..])[i];
    }
  }

  method Pick(s: set<int>) returns (k: int)
    requires s != {}
    ensures k in s
  {
    NonEmpty(s);
    k :| k in s;
  }

  lemma NonEmpty(s: set<int>)
    ensures s == {} || exists x :: x in s
  {
    if !exists x :: x in s {
      assert s == {};
    }
  }

  /** What is written is what is read back, whatever the order of completions, also
      when both use the same buffer. */
  method WriteThenRead(client: XihuClient, blockID: nat, len: nat, src: array<Block>, dst: array<Block>)
    requires client.Idle() && len <= src.Length && len <= dst.Length
    requires CounterFits(len) && (len > 0 ==> blockID + len <= UINT32)
    modifies client, src, dst
    ensures client.Idle() && src[..] == old(src[..])
    ensures dst[..len] == src[..len]
  {
    client.WriteBlocks(blockID, len, src);
    ghost var sent := src[..];
    client.ReadBlocks(blockID, len, dst);
    assert forall s :: 0 <= s < len ==> dst[s] == sent[s];
    assert src[..] == sent;
  }
}
