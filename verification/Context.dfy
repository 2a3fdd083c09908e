/** The synchronous context of hiredis.c: the output buffer, the reader, and the
    blocking request/reply loop. The socket is a list of outcomes, in any order. */
module Contexts {
  import opened Bytes
  import opened SdsStrings
  import opened Resp
  import opened Machine

  /** What write(2) did. */
  datatype WriteResult = Wrote(n: nat) | WriteAgain | WriteInterrupted | WriteFailed

  /** What read(2) did. */
  datatype ReadResult = Data(bytes: seq<Byte>) | ReadAgain | ReadInterrupted | ReadFailed | Eof

  /** How a call ended; `Waiting` means the socket script ran out before it did. */
  datatype CallResult = Got(reply: Option<Reply>) | CallError | Waiting

  /** The bytes of one read. */
  function Payload(net: ReadResult): seq<Byte> {
    if net.Data? then net.bytes else []
  }

  /** The input after a read, if it is done at all. */
  function Fed(before: seq<Byte>, net: ReadResult, done: bool): seq<Byte> {
    if done && net.Data? then before + net.bytes else before
  }

  /** The bytes of several reads, in order. */
  function Payloads(nets: seq<ReadResult>): seq<Byte> {
    if nets == [] then [] else Payloads(nets[..|nets| - 1]) + Payload(nets[|nets| - 1])
  }

  /** The input once `i` of the reads have been done. */
  function Input(before: seq<Byte>, nets: seq<ReadResult>, i: nat): seq<Byte>
    requires i <= |nets|
  {
    before + Payloads(nets[..i])
  }

  lemma InputGrows(before: seq<Byte>, nets: seq<ReadResult>, i: nat)
    requires i < |nets|
    ensures Input(before, nets, i + 1) == Fed(Input(before, nets, i), nets[i], true)
  {
    assert nets[..i + 1][..i] == nets[..i];
    Assoc(before, Payloads(nets[..i]), Payload(nets[i]));
  }

  lemma InputStarts(before: seq<Byte>, nets: seq<ReadResult>)
    ensures Input(before, nets, 0) == before
  {
    assert before + [] == before && nets[..0] == [];
  }

  /** The reply of a request, or NULL. */
  function ReplyOf(replies: seq<Reply>): Option<Reply> {
    if replies == [] then None else Some(replies[0])
  }

  /** The replies handed out, with one more unless it is NULL. */
  function With(handed: seq<Reply>, reply: Option<Reply>): seq<Reply> {
    if reply.Some? then handed + [reply.value] else handed
  }

  /** What a call handed out. */
  function Handed(r: CallResult): Option<Reply> {
    if r.Got? then r.reply else None
  }

  /** Outcomes that break a connection. */
  predicate WriteBreaks(net: WriteResult, block: bool) {
    net.WriteFailed? || (net.WriteAgain? && block)
  }

  predicate ReadBreaks(net: ReadResult, block: bool) {
    net.Eof? || net.ReadFailed? || (net.ReadAgain? && block)
  }

  /** A socket takes no more than it is offered. */
  function Taken(net: WriteResult, offered: nat): WriteResult {
    if net.Wrote? && net.n > offered then Wrote(offered) else net
  }

  /** How many bytes a socket is ready to take in several writes. */
  function Room(nets: seq<WriteResult>): nat {
    if nets == [] then 0
    else Room(nets[..|nets| - 1]) + if nets[|nets| - 1].Wrote? then nets[|nets| - 1].n else 0
  }

  function Least(a: nat, b: nat): (m: nat)
    ensures m <= a && m <= b && (m == a || m == b)
  {
    if a < b then a else b
  }

  /** In the first `w` writes everything was sent, or as much as they had room for. */
  ghost predicate SentAll(before: nat, all: nat, nets: seq<WriteResult>, w: nat, after: nat)
    requires w <= |nets|
  {
    after == Least(all, before + Room(nets[..w]))
  }

  lemma NothingSent(before: nat, all: nat, nets: seq<WriteResult>)
    requires before <= all
    ensures SentAll(before, all, nets, 0, before)
  {
    assert nets[..0] == [];
  }

  lemma RoomGrows(nets: seq<WriteResult>, i: nat)
    requires i < |nets|
    ensures Room(nets[..i + 1]) == Room(nets[..i]) + if nets[i].Wrote? then nets[i].n else 0
  {
    assert nets[..i + 1][..i] == nets[..i];
  }

  class Context {
    var err: bool
    const block: bool
    var obuf: Sds
    var reader: Session
    /** All commands appended so far, and all bytes the socket has taken. */
    ghost var appended: seq<Byte>
    ghost var sent: seq<Byte>
    /** The reader's history, and the replies handed to the caller. */
    ghost var ops: seq<Op>
    ghost var handed: seq<Reply>

    ghost predicate Valid()
      reads this, obuf
    {
      && obuf.Valid()
      && sent + obuf.Contents() == appended
      && History(ops, reader, handed)
      && (reader.Dead? ==> err)
    }

    constructor (block: bool)
      ensures Valid() && !err && this.block == block && fresh(obuf)
      ensures appended == [] && sent == [] && ops == [] && handed == []
    {
      err, this.block := false, block;
      obuf := new Sds.Empty();
      reader := Live(Fresh([]));
      appended, sent, ops, handed := [], [], [], [];
    }

    /** __redisAppendCommand. */
    method AppendCommand(cmd: seq<Byte>)
      requires Valid()
      modifies this`appended, obuf
      ensures Valid() && appended == old(appended) + cmd
    {
      obuf.CatLen(cmd);
      appended := appended + cmd;
      assert sent + (old(obuf.Contents()) + cmd) == sent + old(obuf.Contents()) + cmd;
    }

    /** redisBufferWrite: nothing is lost, repeated or reordered by partial or
        retried writes, and `done` means that everything appended has been sent. */
    method BufferWrite(net: WriteResult) returns (ok: bool, done: bool)
      requires Valid()
      requires net.Wrote? ==> net.n <= obuf.len
      modifies this`err, this`obuf, this`sent, obuf
      ensures Valid() && (obuf == old(obuf) || fresh(obuf))
      ensures ok == !err && (old(err) ==> err && sent == old(sent))
      ensures ok && done ==> sent == appended
      ensures ok && !done ==> obuf.len > 0
      ensures !old(err) && net.Wrote? ==> ok && sent == old(sent + obuf.Contents()[..net.n])
      ensures !net.Wrote? ==> sent == old(sent)
      ensures !old(err) ==> (err <==> old(obuf.len) > 0 && (net.WriteFailed? || (net.WriteAgain? && block)))
    {
      done := false;
      if err { return false, false; }
      if obuf.len > 0 {
        match net {
          case Wrote(n) => Drop(n);
          case WriteAgain =>
            if block {
              err := true;
              return false, false;
            }
          case WriteInterrupted =>
          case WriteFailed =>
            err := true;
            return false, false;
        }
      }
      return true, obuf.len == 0;
    }

    /** The socket took the first `n` bytes of the output buffer. */
    method Drop(n: nat)
      requires Valid() && n <= obuf.len
      modifies this`obuf, this`sent, obuf
      ensures Valid() && (obuf == old(obuf) || fresh(obuf))
      ensures sent == old(sent + obuf.Contents()[..n])
    {
      ghost var out := obuf.Contents();
      assert out[..n] + out[n..] == out;
      sent := sent + out[..n];
      assert sent + out[n..] == old(sent) + (out[..n] + out[n..]);
      if n == 0 { return; }
      if n == obuf.len {
        obuf := new Sds.Empty();
      } else {
        obuf.Range(n, -1);
      }
    }

    /** redisBufferRead: received bytes reach the reader, and the connection is
        broken exactly by end of file, a failure, or a time-out when blocking. */
    method BufferRead(net: ReadResult) returns (ok: bool)
      requires Valid()
      modifies this`err, this`reader, this`ops
      ensures Valid() && ok == !err
      ensures err <==> old(err) || net.Eof? || net.ReadFailed? || (net.ReadAgain? && block)
      ensures Stream(ops) == if !old(err) && net.Data? then Stream(old(ops)) + net.bytes else Stream(old(ops))
      ensures old(err) || !net.Data? ==> ops == old(ops) && reader == old(reader)
    {
      if err { return false; }
      match net {
        case Data(bytes) =>
          HistoryFeeds(ops, reader, handed, bytes);
          ops := ops + [Op.Feed(bytes)];
          reader := Perform(reader, Op.Feed(bytes)).session;
        case ReadAgain => err := block;
        case ReadInterrupted =>
        case ReadFailed => err := true;
        case Eof => err := true;
      }
      return !err;
    }

    /** What a request finds in the reader as it is. */
    ghost function Buffered(): Result
      requires Valid()
      reads this, obuf
    {
      HistoryAsks(ops, reader, handed);
      Perform(reader, Op.GetReply)
    }

    /** redisGetReplyFromReader: the next reply of the input if it is complete, no
        reply if it is not, and an error if the input is faulty. */
    method GetReplyFromReader() returns (ok: bool, reply: Option<Reply>)
      requires Valid()
      modifies this`err, this`reader, this`ops, this`handed
      ensures Valid() && Stream(ops) == Stream(old(ops))
      ensures var p := old(Buffered());
              && reader == p.session && ok == p.session.Live? && err == (old(err) || !ok)
              && reply == ReplyOf(p.replies)
      ensures handed == With(old(handed), reply)
      ensures ok && reply.None? ==> Quiet(reader) && handed == old(handed)
    {
      HistoryAsks(ops, reader, handed);
      var p := Perform(reader, Op.GetReply);
      ops, handed, reader := ops + [Op.GetReply], handed + p.replies, p.session;
      reply := ReplyOf(p.replies);
      assert handed == With(old(handed), reply);
      ok := reader.Live?;
      if !ok { err := true; }
    }

    /** redisGetReply. A reply that is already buffered is handed out at once. In a
        blocking context the call otherwise flushes the output, and only then reads,
        until a reply is complete and no further. `w` and `i` are the numbers of
        socket outcomes the call used; it is left waiting only when it used all
        writes, or sent everything and used all reads. */
    method GetReply(outgoing: seq<WriteResult>, incoming: seq<ReadResult>) returns (r: CallResult, w: nat, i: nat)
      requires Valid()
      modifies this, obuf
      ensures Valid() && appended == old(appended) && (obuf == old(obuf) || fresh(obuf))
      ensures w <= |outgoing| && i <= |incoming|
      ensures Stream(ops) == Input(Stream(old(ops)), incoming, i)
      ensures handed == With(old(handed), Handed(r))
      ensures handed <= ParseAll(Stream(ops)).replies
      ensures var p := old(Buffered());
              if p.session.Dead? then r == CallError && w == i == 0
              else if p.replies != [] || !block then r == Got(ReplyOf(p.replies)) && w == i == 0
              else r != Got(None) && (r.Got? ==> 0 < i)
      ensures r.Waiting? ==> w == |outgoing| || (sent == appended && i == |incoming|)
      ensures r.Waiting? ==> !err && handed == ParseAll(Stream(ops)).replies
      ensures 0 < i ==> sent == appended
      ensures !old(err) ==> SentAll(|old(sent)|, |appended|, outgoing, w, |sent|)
      ensures r.Got? && 0 < i ==> ParseAll(Input(Stream(old(ops)), incoming, i - 1)).replies == old(handed)
      ensures if r.CallError? then err else r.Got? ==> err == old(err)
      ensures r.CallError? && !old(err) ==> reader.Dead? || Broken(outgoing, w, incoming, i)
    {
      ghost var past;
      r, w, i, past := Call(outgoing, incoming);
      HistoryIsPrefix(ops, reader, handed);
      if r.Waiting? {
        HistoryIsComplete(ops, reader, handed);
      } else if r.Got? && 0 < i {
        PausedIsAll(past, Input(Stream(old(ops)), incoming, i - 1), old(handed));
      }
    }

    /** The last outcome a call used broke the connection. */
    ghost predicate Broken(outgoing: seq<WriteResult>, w: nat, incoming: seq<ReadResult>, i: nat)
      requires w <= |outgoing| && i <= |incoming|
    {
      if 0 < i then ReadBreaks(incoming[i - 1], block) else 0 < w && WriteBreaks(outgoing[w - 1], block)
    }

    method Call(outgoing: seq<WriteResult>, incoming: seq<ReadResult>)
      returns (r: CallResult, w: nat, i: nat, ghost past: Past)
      requires Valid()
      modifies this, obuf
      ensures Valid() && appended == old(appended) && (obuf == old(obuf) || fresh(obuf))
      ensures w <= |outgoing| && i <= |incoming|
      ensures Stream(ops) == Input(Stream(old(ops)), incoming, i)
      ensures handed == With(old(handed), Handed(r))
      ensures var p := old(Buffered());
              if p.session.Dead? then r == CallError && w == i == 0
              else if p.replies != [] || !block then r == Got(ReplyOf(p.replies)) && w == i == 0
              else r != Got(None) && (r.Got? ==> 0 < i)
      ensures r.Waiting? ==> !err && Quiet(reader) && (w == |outgoing| || (sent == appended && i == |incoming|))
      ensures 0 < i ==> sent == appended
      ensures !old(err) ==> SentAll(|old(sent)|, |appended|, outgoing, w, |sent|)
      ensures r.Got? && 0 < i ==> Paused(past, Input(Stream(old(ops)), incoming, i - 1), old(handed))
      ensures if r.CallError? then err else r.Got? ==> err == old(err)
      ensures r.CallError? && !old(err) ==> reader.Dead? || Broken(outgoing, w, incoming, i)
    {
      w, i, past := 0, 0, Past([], reader);
      InputStarts(Stream(ops), incoming);
      SentIsAppended();
      NothingSent(|sent|, |appended|, outgoing);
      var ok, aux := GetReplyFromReader();
      if !ok { return CallError, w, i, past; }
      if aux.None? && block {
        r, w, i, past := FlushAndRead(outgoing, incoming);
        return;
      }
      return Got(aux), w, i, past;
    }

    lemma SentIsAppended()
      requires Valid()
      ensures |sent| <= |appended|
    {
      assert |sent + obuf.Contents()| == |sent| + |obuf.Contents()|;
    }

    /** What redisGetReply does when no reply is buffered. */
    method FlushAndRead(outgoing: seq<WriteResult>, incoming: seq<ReadResult>)
      returns (r: CallResult, w: nat, i: nat, ghost past: Past)
      requires Valid() && Quiet(reader)
      modifies this, obuf
      ensures Valid() && appended == old(appended) && (obuf == old(obuf) || fresh(obuf))
      ensures w <= |outgoing| && i <= |incoming| && r != Got(None)
      ensures Stream(ops) == Input(Stream(old(ops)), incoming, i)
      ensures handed == With(old(handed), Handed(r))
      ensures r.Waiting? ==> !err && Quiet(reader) && (w == |outgoing| || (sent == appended && i == |incoming|))
      ensures 0 < i ==> sent == appended
      ensures !old(err) ==> SentAll(|old(sent)|, |appended|, outgoing, w, |sent|)
      ensures r.Got? ==>
                && 0 < i && !err && !old(err)
                && Paused(past, Input(Stream(old(ops)), incoming, i - 1), old(handed))
      ensures r.CallError? ==> err && (old(err) || reader.Dead? || Broken(outgoing, w, incoming, i))
    {
      i, past := 0, Past([], reader);
      InputStarts(Stream(ops), incoming);
      var flushed;
      flushed, w := Flush(outgoing);
      if err { return CallError, w, i, past; }
      if !flushed { return Waiting, w, i, past; }
      r, i, past := ReadUntilReply(incoming);
    }

    /** The write loop of redisGetReply. */
    method Flush(outgoing: seq<WriteResult>) returns (done: bool, w: nat)
      requires Valid()
      modifies this`err, this`obuf, this`sent, obuf
      ensures Valid() && (obuf == old(obuf) || fresh(obuf))
      ensures done ==> !err && sent == appended
      ensures w <= |outgoing| && (!done && !err ==> w == |outgoing|)
      ensures old(err) ==> err
      ensures !old(err) ==> SentAll(|old(sent)|, |appended|, outgoing, w, |sent|)
      ensures err && !old(err) ==> 0 < w && WriteBreaks(outgoing[w - 1], block)
    {
      w := 0;
      done := false;
      while !done && w < |outgoing|
        invariant Valid() && (obuf == old(obuf) || fresh(obuf)) && w <= |outgoing|
        invariant done ==> !err && sent == appended
        invariant err == old(err)
        invariant !err ==> SentAll(|old(sent)|, |appended|, outgoing, w, |sent|)
        decreases |outgoing| - w
      {
        RoomGrows(outgoing, w);
        var ok;
        ok, done := BufferWrite(Taken(outgoing[w], obuf.len));
        w := w + 1;
        if !ok { return false, w; }
      }
    }

    /** The read loop of redisGetReply. */
    method ReadUntilReply(incoming: seq<ReadResult>) returns (r: CallResult, i: nat, ghost past: Past)
      requires Valid() && !err && Quiet(reader)
      modifies this`err, this`reader, this`ops, this`handed
      ensures Valid() && i <= |incoming| && r != Got(None)
      ensures Stream(ops) == Input(Stream(old(ops)), incoming, i)
      ensures handed == With(old(handed), Handed(r))
      ensures r.Got? ==> 0 < i && Paused(past, Input(Stream(old(ops)), incoming, i - 1), old(handed))
      ensures r.Waiting? ==> i == |incoming| && Quiet(reader)
      ensures r.CallError? <==> err
      ensures r.CallError? ==> 0 < i && (reader.Dead? || ReadBreaks(incoming[i - 1], block))
    {
      i := 0;
      InputStarts(Stream(ops), incoming);
      while i < |incoming|
        invariant Valid() && !err && i <= |incoming| && handed == old(handed) && Quiet(reader)
        invariant Stream(ops) == Input(Stream(old(ops)), incoming, i)
      {
        past := Past(ops, reader);
        InputGrows(Stream(old(ops)), incoming, i);
        var ok, aux := ReadOnce(incoming[i]);
        i := i + 1;
        if !ok { return CallError, i, past; }
        if aux.Some? { return Got(aux), i, past; }
      }
      return Waiting, i, Past(ops, reader);
    }

    /** One turn of the read loop. */
    method ReadOnce(net: ReadResult) returns (ok: bool, aux: Option<Reply>)
      requires Valid() && !err
      modifies this`err, this`reader, this`ops, this`handed
      ensures Valid()
      ensures Stream(ops) == Fed(Stream(old(ops)), net, true)
      ensures ok == !err && (!ok ==> aux.None? && (reader.Dead? || ReadBreaks(net, block)))
      ensures handed == With(old(handed), aux)
      ensures ok && aux.None? ==> Quiet(reader)
    {
      ok := BufferRead(net);
      aux := None;
      if ok {
        ok, aux := GetReplyFromReader();
      }
    }
  }
}
