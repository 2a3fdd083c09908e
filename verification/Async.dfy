/** The asynchronous context of async.c in request/reply mode: commands and their
    callbacks, replies dispatched in order, callbacks that re-enter the API, and
    deferred teardown. User callbacks are arbitrary lists of API calls. */
module AsyncContexts {
  import opened Bytes
  import opened Resp
  import opened Machine
  import opened Contexts
  import opened CallbackLists
  import opened DeliveryBooks
  import opened AsyncTraces

  /** How the pending connect(2) turned out. */
  datatype ConnectResult = Connected | InProgress | Refused

  /** A context runs until it is freed, after the disconnect hook, if any, was given
      a status, or until an assertion aborts the program. */
  datatype End = Running | Freed(status: Option<bool>) | Aborted

  /** The part of a context that neither callbacks nor the drain loop touch. */
  datatype Footing = Footing(end: End, connected: bool, outs: seq<Action>, hooked: bool)

  class AsyncContext {
    /** The non-blocking context inside: error, output buffer and reader. */
    const c: Context
    // Flag bits of the context.
    var disconnecting: bool
    var freeing: bool
    var inCallback: bool
    var connected: bool
    /** Pending callbacks, oldest first. */
    const replies: CallbackList
    /** There is a disconnect hook. */
    const onDisconnect: bool
    /** What the user's code does when it is called. */
    const user: Program
    /** Whether and how the life of the context has ended. */
    var end: End
    /** Every call of user code, in order. */
    var log: seq<Delivery>

    ghost var orders: Orders
    ghost var tally: Tally
    ghost var wishes: Wishes
    /** Who asked for what, in order; the requests made between callbacks; whether
        the connect hook has run. */
    ghost var trace: seq<Source>
    ghost var outs: seq<Action>
    ghost var hooked: bool

    /** What every step keeps, teardown and running callbacks included. */
    ghost predicate Core()
      reads this, c, c.obuf, replies
    {
      && c.Valid() && !c.block && replies.Valid()
      && Balanced(orders, tally, replies.contents, c.handed, c.appended)
    }

    /** Flags and accepted commands are exactly what the requests made so far lead to. */
    ghost predicate Traced()
      reads this, c
    {
      OnlyCommands(user.hook) && Tells(user, trace, View(), outs, |log|, hooked, c.err)
    }

    ghost predicate Valid()
      reads this, c, c.obuf, replies
    {
      && Core() && Traced()
      && log == Runs(tally.consumed)
      && !inCallback
      && (Alive() ==> LiveBooks(freeing, tally, c.handed) && hooked == connected)
      && (end.Freed? ==> ClosedBooks(Closing(), c.err, freeing, orders, tally, replies.contents, c.handed))
      && (end.Aborted? ==> AbortedBooks(orders, tally, replies.contents, c.handed))
    }

    /** The books may be closed once the pending callbacks have been served. */
    ghost predicate Closable()
      reads this, c
    {
      Settled(orders, tally, c.handed) && Closing() && Grounds(c.err, freeing, orders, c.handed)
    }

    /** No complete reply is left in the reader, unless a callback asked to free
        the context or a reply came that nobody had asked for. */
    ghost predicate Through()
      reads this, c
    {
      wishes.cut || |c.handed| > |orders.accepted| || Quiet(c.reader) || (end.Freed? && c.reader.Dead?)
    }

    /** The input itself is to blame for an error. */
    ghost predicate Fault()
      reads this, c
    {
      c.reader.Dead? || |c.handed| > |orders.accepted|
    }

    ghost predicate Alive()
      reads this
    {
      end.Running?
    }

    /** Teardown may start: no new command can be accepted any more. */
    ghost predicate Closing()
      reads this
    {
      disconnecting || freeing
    }

    /** What user code can change, and what it leaves alone. */
    ghost function View(): Gate
      reads this
    {
      Gate(disconnecting, freeing, wishes, orders)
    }

    ghost function Base(): Footing
      reads this
    {
      Footing(end, connected, outs, hooked)
    }

    constructor (onDisconnect: bool, user: Program)
      requires OnlyCommands(user.hook)
      ensures Valid() && Through() && Alive() && !Closing() && !connected && !c.err && this.user == user
      ensures log == [] && c.ops == [] && outs == []
      ensures fresh(c) && fresh(c.obuf) && fresh(replies)
    {
      c := new Context(false);
      replies := new CallbackList();
      disconnecting, freeing, inCallback, connected := false, false, false, false;
      this.onDisconnect, this.user, end, log := onDisconnect, user, Running, [];
      orders, tally := Orders([], []), Tally([], [], 0);
      wishes, trace, outs, hooked := Wishes(false, false, false), [], [], false;
      TellsNothing(user);
    }

    /** __redisAsyncCommand for a plain command. */
    method Command(cb: Callback, cmd: seq<Byte>) returns (ok: bool)
      requires Core() && Alive()
      modifies this, c`appended, c.obuf, replies
      ensures Core() && ok == !Closing() && View() == Acted(old(View()), IssueCommand(cb, cmd))
      ensures Base() == old(Base()) && log == old(log) && inCallback == old(inCallback)
      ensures tally == old(tally) && trace == old(trace)
      ensures replies.contents == if ok then old(replies.contents) + [cb] else old(replies.contents)
    {
      if disconnecting || freeing { return false; }
      AcceptBalances(orders, tally, replies.contents, c.handed, c.appended, cb, cmd);
      replies.Push(cb);
      c.AppendCommand(cmd);
      orders := Accept(orders, cb, cmd);
      return true;
    }

    /** redisAsyncCommand, called outside callbacks. */
    method Submit(cb: Callback, cmd: seq<Byte>) returns (ok: bool)
      requires Valid() && Alive()
      modifies this, c`appended, c.obuf, replies
      ensures Valid() && ok == !Closing() && View() == Acted(old(View()), IssueCommand(cb, cmd))
      ensures Base() == old(Base()).(outs := old(outs) + [IssueCommand(cb, cmd)])
      ensures log == old(log) && wishes == old(wishes)
    {
      TellsMore(user, trace, View(), outs, |log|, hooked, c.err, Outside(IssueCommand(cb, cmd)));
      ok := Command(cb, cmd);
      Note(IssueCommand(cb, cmd));
    }

    /** Record a call made between callbacks. */
    method Note(a: Action)
      requires Core()
      modifies this
      ensures Core() && View() == old(View()) && Base() == old(Base()).(outs := old(outs) + [a])
      ensures trace == old(trace) + [Outside(a)] && tally == old(tally)
      ensures log == old(log) && inCallback == old(inCallback)
    {
      trace, outs := trace + [Outside(a)], outs + [a];
    }

    /** __redisShiftCallback, recording what the callback is about to receive. */
    method Shift(reply: Option<Reply>) returns (cb: Callback)
      requires Core() && replies.contents != []
      requires reply.Some? ==> Due(tally, c.handed, reply.value)
      modifies this, replies
      ensures Core() && cb == old(replies.contents)[0] && replies.contents == old(replies.contents)[1..]
      ensures View() == old(View()) && Base() == old(Base()) && trace == old(trace)
      ensures log == old(log) && inCallback == old(inCallback)
      ensures tally == Consume(old(tally), cb, reply)
      ensures Runs(tally.consumed) == Called(Runs(old(tally.consumed)), Delivery(cb, reply))
    {
      RunsGrow(tally.consumed, Delivery(replies.contents[0], reply));
      ConsumeBalances(orders, tally, replies.contents, c.handed, c.appended, reply);
      var target := replies.Shift();
      cb := target.value;
      tally := Consume(tally, cb, reply);
    }

    /** __redisRunCallback. The user's code is an arbitrary list of API calls, all
        made while the in-callback flag is up. */
    method RunCallback(cb: Callback, reply: Option<Reply>)
      requires Core() && Traced() && Alive() && !inCallback
      modifies this, c`appended, c.obuf, replies
      ensures Core() && Traced() && Base() == old(Base()) && tally == old(tally) && !inCallback
      ensures log == Called(old(log), Delivery(cb, reply))
      ensures View() == if cb.fn then ActedAll(old(View()), user.script(|old(log)|)) else old(View())
    {
      if cb.fn {
        Call(Delivery(cb, reply));
      }
    }

    method Call(d: Delivery)
      requires Core() && Traced() && Alive() && !inCallback
      modifies this, c`appended, c.obuf, replies
      ensures Core() && Traced() && Base() == old(Base()) && tally == old(tally) && !inCallback
      ensures log == old(log) + [d]
      ensures View() == ActedAll(old(View()), user.script(|old(log)|))
    {
      TellsMore(user, trace, View(), outs, |log|, hooked, c.err, Inside(|log|));
      var script := user.script(|log|);
      Enter(d);
      UserCode(script);
      Leave();
    }

    /** The in-callback flag goes up and down around the call. */
    method Enter(d: Delivery)
      requires Core()
      modifies this
      ensures Core() && View() == old(View()) && Base() == old(Base()) && tally == old(tally)
      ensures inCallback && log == old(log) + [d] && trace == old(trace) + [Inside(|old(log)|)]
    {
      inCallback, log, trace := true, log + [d], trace + [Inside(|log|)];
    }

    method Leave()
      requires Core()
      modifies this
      ensures Core() && View() == old(View()) && Base() == old(Base()) && tally == old(tally)
      ensures !inCallback && log == old(log) && trace == old(trace)
    {
      inCallback := false;
    }

    method UserCode(script: seq<Action>)
      requires Core() && Alive() && inCallback
      modifies this, c`appended, c.obuf, replies
      ensures Core() && View() == ActedAll(old(View()), script)
      ensures Base() == old(Base()) && log == old(log) && inCallback
      ensures tally == old(tally) && trace == old(trace)
      decreases |script|
    {
      if script != [] {
        Act(script[0]);
        UserCode(script[1..]);
      }
    }

    method Act(a: Action)
      requires Core() && Alive() && inCallback
      modifies this, c`appended, c.obuf, replies
      ensures Core() && View() == Acted(old(View()), a)
      ensures Base() == old(Base()) && log == old(log) && inCallback
      ensures tally == old(tally) && trace == old(trace)
    {
      match a {
        case IssueCommand(cb, cmd) => var _ := Command(cb, cmd);
        case RequestDisconnect => DisconnectInCallback();
        case RequestFree => FreeInCallback();
      }
    }

    /** redisAsyncDisconnect and redisAsyncFree when called from a callback: only
        the flag is set and the work is left to the caller of the callback. */
    method DisconnectInCallback()
      requires Core() && inCallback
      modifies this`disconnecting, this`wishes
      ensures Core() && disconnecting && wishes == old(wishes).(inside := true)
    {
      disconnecting, wishes := true, wishes.(inside := true);
    }

    method FreeInCallback()
      requires Core() && inCallback
      modifies this`freeing, this`wishes
      ensures Core() && freeing && wishes == old(wishes).(inside := true, cut := true)
    {
      freeing, wishes := true, wishes.(inside := true, cut := true);
    }

    /** The oldest pending callback is taken off the list and run. */
    method Serve(reply: Option<Reply>) returns (cb: Callback)
      requires Core() && Traced() && Alive() && !inCallback && log == Runs(tally.consumed) && replies.contents != []
      requires reply.Some? ==> Due(tally, c.handed, reply.value)
      modifies this, c`appended, c.obuf, replies
      ensures Core() && Traced() && Base() == old(Base()) && !inCallback && log == Runs(tally.consumed)
      ensures |tally.consumed| == |old(tally.consumed)| + 1
      ensures tally.answered == if reply.Some? then old(tally.answered) + 1 else old(tally.answered)
      ensures Narrows(old(View()), View()) && (freeing && !old(freeing) ==> cb.fn)
    {
      cb := Shift(reply);
      ActedNarrows(View(), user.script(|log|));
      RunCallback(cb, reply);
    }

    /** __redisAsyncFree: every pending callback gets NULL, in order, then the
        disconnect hook runs and the context is gone. */
    method Teardown()
      requires Core() && Traced() && Alive() && !inCallback && Closable()
      requires log == Runs(tally.consumed)
      modifies this, c`appended, c.obuf, replies
      ensures Valid() && end.Freed? && Closing() && (old(freeing) ==> freeing) && (old(wishes.cut) ==> wishes.cut)
      ensures tally.answered == old(tally.answered) && orders == old(orders)
      ensures outs == old(outs)
      ensures end == Freed(if onDisconnect && old(connected) then Some(freeing || !c.err) else None)
    {
      DrainPending();
      CleanUp();
    }

    /** The drain loop. Callbacks it runs cannot enqueue, so it ends. */
    method DrainPending()
      requires Core() && Traced() && Alive() && !inCallback && Closing() && log == Runs(tally.consumed)
      modifies this, c`appended, c.obuf, replies
      ensures Core() && Traced() && Base() == old(Base()) && !inCallback && Closing() && log == Runs(tally.consumed)
      ensures (old(freeing) ==> freeing) && (old(wishes.cut) ==> wishes.cut)
      ensures replies.contents == [] && tally.answered == old(tally.answered) && orders == old(orders)
    {
      while replies.head != NULL
        invariant Core() && Traced() && Base() == old(Base()) && !inCallback && Closing()
        invariant log == Runs(tally.consumed) && tally.answered == old(tally.answered) && orders == old(orders)
        invariant (old(freeing) ==> freeing) && (old(wishes.cut) ==> wishes.cut)
        decreases |replies.contents|
      {
        var _ := Serve(None);
      }
    }

    /** The tail of __redisAsyncFree: the disconnect hook, then the memory. */
    method CleanUp()
      requires Core() && Traced() && Alive() && !inCallback && replies.contents == [] && Closable()
      requires log == Runs(tally.consumed)
      modifies this`end
      ensures Valid() && end == Freed(if onDisconnect && connected then Some(freeing || !c.err) else None)
    {
      var status := None;
      if onDisconnect && connected {
        status := Some(freeing || !c.err);
      }
      end := Freed(status);
    }

    /** __redisAsyncDisconnect. The assertion for clean disconnects holds. */
    method AsyncDisconnect()
      requires Core() && Traced() && Alive() && !inCallback
      requires c.err || (disconnecting && replies.contents == [] && |c.handed| == |orders.accepted|)
      requires log == Runs(tally.consumed) && Settled(orders, tally, c.handed)
      modifies this, c`appended, c.obuf, replies
      ensures Valid() && end.Freed? && Closing()
      ensures tally.answered == old(tally.answered) && orders == old(orders)
      ensures outs == old(outs)
      ensures end == Freed(if onDisconnect && old(connected) then Some(freeing || !c.err) else None)
    {
      assert !c.err ==> replies.contents == [];
      if c.err { LockOut(); }
      Teardown();
    }

    /** After an error no new command is accepted any more. */
    method LockOut()
      requires Core() && Traced() && c.err
      modifies this`disconnecting, this`trace
      ensures Core() && Traced() && disconnecting
    {
      TellsMore(user, trace, View(), outs, |log|, hooked, c.err, Broke);
      disconnecting, trace := true, trace + [Broke];
    }

    /** redisAsyncDisconnect, called outside callbacks. */
    method Disconnect()
      requires Valid() && Alive()
      modifies this, c`appended, c.obuf, replies
      ensures Valid() && Closing() && outs == old(outs) + [RequestDisconnect]
      ensures tally.answered == old(tally.answered) && orders == old(orders)
      ensures end.Freed? <==> old(replies.contents) == []
      ensures !end.Freed? ==> Alive() && disconnecting && connected == old(connected)
    {
      TellsMore(user, trace, View(), outs, |log|, hooked, c.err, Outside(RequestDisconnect));
      disconnecting, wishes := true, wishes.(outside := true);
      Note(RequestDisconnect);
      if !inCallback && replies.head == NULL {
        AsyncDisconnect();
      }
    }

    /** redisAsyncFree, called outside callbacks: the context is freed at once and
        all pending callbacks have been given NULL. */
    method Free()
      requires Valid() && Alive()
      modifies this, c`appended, c.obuf, replies
      ensures Valid() && end.Freed? && freeing && outs == old(outs) + [RequestFree]
      ensures tally.answered == old(tally.answered) && orders == old(orders)
    {
      TellsMore(user, trace, View(), outs, |log|, hooked, c.err, Outside(RequestFree));
      freeing, wishes := true, wishes.(outside := true);
      Note(RequestFree);
      if !inCallback {
        Teardown();
      }
    }

    /** redisGetReply, which on a non-blocking context only asks the reader. */
    method NextReply() returns (ok: bool, reply: Option<Reply>)
      requires Valid() && Alive() && c.reader.Live?
      modifies c`ops, c`handed, c`reader, c`err
      ensures Core() && Traced() && ok == c.reader.Live?
      ensures (!ok ==> c.err && reply.None?) && (ok ==> c.err == old(c.err))
      ensures c.handed == With(old(c.handed), reply)
      ensures Stream(c.ops) == Stream(old(c.ops))
      ensures ok && reply.None? ==> Quiet(c.reader)
      ensures reply.Some? ==> |c.reader.m.rest| < |old(c.reader.m.rest)|
    {
      HistoryAsks(c.ops, c.reader, c.handed);
      ghost var before := c.handed;
      ok, reply := c.GetReplyFromReader();
      MoreReplies(orders, tally, replies.contents, before, c.appended, c.handed);
    }

    /** Give a reply to the oldest pending callback; tell whether the callback
        asked for the context to be freed. */
    method Dispatch(reply: Reply) returns (free: bool)
      requires Core() && Traced() && Alive() && !inCallback && !freeing
      requires log == Runs(tally.consumed) && replies.contents != []
      requires Due(tally, c.handed, reply) && |c.handed| == tally.answered + 1
      modifies this, c`appended, c.obuf, replies
      ensures Core() && Traced() && Base() == old(Base()) && !inCallback && log == Runs(tally.consumed)
      ensures tally.answered == |tally.consumed| == |c.handed|
      ensures free == freeing && (free ==> wishes.cut)
      ensures (old(disconnecting) ==> disconnecting) && Extends(old(orders), orders)
    {
      var cb := Serve(Some(reply));
      return cb.fn && freeing;
    }

    /** A reply that no pending command asked for: an error reply closes the
        connection, anything else fails the assertion of request/reply mode. */
    method Spontaneous(reply: Reply)
      requires Core() && Traced() && Alive() && !inCallback && !freeing
      requires log == Runs(tally.consumed) && replies.contents == []
      requires Due(tally, c.handed, reply) && |c.handed| == tally.answered + 1
      modifies this, c`err, c`appended, c.obuf, replies
      ensures Valid() && !Alive() && |c.handed| > |orders.accepted|
      ensures Onward(old(View()), View()) && outs == old(outs) && (end.Aborted? <==> !reply.Error?)
    {
      if reply.Error? {
        c.err := true;
        AsyncDisconnect();
      } else {
        end := Aborted;
      }
    }

    /** One turn of redisProcessCallbacks: the status of redisGetReply, and whether
        to go on. */
    method ProcessOne() returns (ok: bool, go: bool)
      requires Valid() && Alive() && c.reader.Live?
      modifies this, c, c.obuf, replies
      ensures Onward(old(View()), View()) && outs == old(outs)
      ensures (Alive() ==> connected == old(connected)) && (c.err ==> old(c.err) || Fault())
      ensures (c.obuf == old(c.obuf) || fresh(c.obuf)) && Valid() && Stream(c.ops) == Stream(old(c.ops))
      ensures !ok ==> Alive() && c.reader.Dead? && !go
      ensures go ==> Alive() && c.reader.Live? && |c.reader.m.rest| < |old(c.reader.m.rest)|
      ensures ok && !go ==> Through()
      ensures ok && Alive() ==> c.err == old(c.err)
      ensures ok && !go && Alive() && disconnecting ==> replies.contents != [] || c.obuf.len > 0
    {
      var reply;
      ok, reply := NextReply();
      if !ok { return false, false; }
      if reply.None? {
        NoReply();
        return true, false;
      }
      go := Deliver(reply.value);
    }

    /** There is no complete reply: a context that is done with everything closes. */
    method NoReply()
      requires Valid() && Alive()
      modifies this, c`appended, c.obuf, replies
      ensures Valid() && (Alive() ==> connected == old(connected))
      ensures Onward(old(View()), View()) && outs == old(outs)
      ensures Alive() && disconnecting ==> replies.contents != [] || c.obuf.len > 0
    {
      if disconnecting && c.obuf.len == 0 && replies.head == NULL {
        AsyncDisconnect();
      }
    }

    /** A reply has been taken from the reader. */
    method Deliver(reply: Reply) returns (go: bool)
      requires Core() && Traced() && Alive() && !inCallback && !freeing && log == Runs(tally.consumed)
      requires Due(tally, c.handed, reply) && |c.handed| == tally.answered + 1
      requires hooked == connected
      modifies this, c`err, c`appended, c.obuf, replies
      ensures Onward(old(View()), View()) && outs == old(outs)
      ensures (Alive() ==> connected == old(connected)) && (c.err ==> old(c.err) || Fault())
      ensures Valid() && (go <==> Alive())
      ensures if go then c.err == old(c.err) else wishes.cut || |c.handed| > |orders.accepted|
    {
      if replies.head == NULL {
        Spontaneous(reply);
        return false;
      }
      var free := Dispatch(reply);
      if free {
        Teardown();
      }
      return !free;
    }

    /** redisProcessCallbacks: dispatch every complete reply in the buffer. */
    method ProcessCallbacks()
      requires Valid() && Alive() && c.reader.Live?
      modifies this, c, c.obuf, replies
      ensures Onward(old(View()), View()) && outs == old(outs)
      ensures (Alive() ==> connected == old(connected)) && (c.err ==> old(c.err) || Fault())
      ensures (c.obuf == old(c.obuf) || fresh(c.obuf)) && Valid() && Through() && Stream(c.ops) == Stream(old(c.ops))
      ensures Alive() ==> c.err == old(c.err)
      ensures Alive() && disconnecting ==> replies.contents != [] || c.obuf.len > 0
    {
      var ok := DispatchAll();
      if !ok {
        AsyncDisconnect();
      }
    }

    /** The loop of redisProcessCallbacks, with the status of its last redisGetReply. */
    method DispatchAll() returns (ok: bool)
      requires Valid() && Alive() && c.reader.Live?
      modifies this, c, c.obuf, replies
      ensures Onward(old(View()), View()) && outs == old(outs)
      ensures (Alive() ==> connected == old(connected)) && (c.err ==> old(c.err) || Fault())
      ensures (c.obuf == old(c.obuf) || fresh(c.obuf)) && Valid() && Stream(c.ops) == Stream(old(c.ops))
      ensures if ok then Through() else Alive() && c.reader.Dead?
      ensures ok && Alive() ==>
                c.err == old(c.err) && (disconnecting ==> replies.contents != [] || c.obuf.len > 0)
    {
      var go := true;
      ok := true;
      while go
        invariant (c.obuf == old(c.obuf) || fresh(c.obuf)) && Valid() && Stream(c.ops) == Stream(old(c.ops))
        invariant Onward(old(View()), View()) && outs == old(outs)
        invariant (Alive() ==> connected == old(connected)) && (c.err ==> old(c.err) || Fault())
        invariant if go then ok && Alive() && c.reader.Live? else if ok then Through() else Alive() && c.reader.Dead?
        invariant ok && Alive() ==>
                    c.err == old(c.err) && (!go && disconnecting ==> replies.contents != [] || c.obuf.len > 0)
        decreases go, if c.reader.Live? then |c.reader.m.rest| else 0
      {
        ok, go := ProcessOne();
      }
    }

    /** The connect hook: user code that may issue any commands. */
    method ConnectHook()
      requires Core() && Traced() && Alive() && !hooked
      modifies this, c`appended, c.obuf, replies
      ensures Core() && Traced() && Base() == old(Base()).(hooked := true)
      ensures log == old(log) && inCallback == old(inCallback) && tally == old(tally)
      ensures View() == ActedAll(old(View()), user.hook)
    {
      TellsMore(user, trace, View(), outs, |log|, hooked, c.err, Hook);
      Issue(user.hook);
      trace, hooked := trace + [Hook], true;
    }

    method Issue(script: seq<Action>)
      requires Core() && Alive() && OnlyCommands(script)
      modifies this, c`appended, c.obuf, replies
      ensures Core() && View() == ActedAll(old(View()), script)
      ensures Base() == old(Base()) && log == old(log) && inCallback == old(inCallback)
      ensures tally == old(tally) && trace == old(trace)
      decreases |script|
    {
      if script != [] {
        var _ := Command(script[0].cb, script[0].cmd);
        Issue(script[1..]);
      }
    }

    /** __redisAsyncHandleConnect. A pending connect leaves its error code behind,
        which the next read or write reports. */
    method HandleConnect(net: ConnectResult)
      requires Valid() && Alive() && !connected
      modifies this, c`err, c`appended, c.obuf, replies
      ensures Valid() && Onward(old(View()), View()) && outs == old(outs)
      ensures net.Connected? ==> Alive() && connected && c.err == old(c.err)
      ensures net.InProgress? ==> Alive() && !connected && c.err
      ensures net.Refused? ==> end == Freed(None) && c.err
    {
      match net {
        case Connected =>
          ActedNarrows(View(), user.hook);
          CommandsKeepFlags(View(), user.hook);
          connected := true;
          ConnectHook();
        case InProgress =>
          c.err := true;
        case Refused => ConnectFailed();
      }
    }

    method ConnectFailed()
      requires Valid() && Alive() && !connected
      modifies this, c`err, c`appended, c.obuf, replies
      ensures Valid() && Onward(old(View()), View()) && outs == old(outs) && c.err && end == Freed(None)
    {
      ActedNarrows(View(), user.hook);
      c.err := true;
      ConnectHook();
      AsyncDisconnect();
    }

    /** A handler gets past the connection state. */
    predicate Reaches(conn: ConnectResult)
      reads this
    {
      connected || conn.Connected?
    }

    /** redisAsyncHandleRead: what arrived is fed to the reader, and every reply
        it completes has been dispatched when the handler returns. */
    method HandleRead(conn: ConnectResult, net: ReadResult)
      requires Valid() && Through() && Alive()
      modifies this, c, c.obuf, replies
      ensures (c.obuf == old(c.obuf) || fresh(c.obuf)) && Valid() && Through()
      ensures Onward(old(View()), View()) && outs == old(outs)
      ensures Stream(c.ops) ==
              if old(Reaches(conn) && !c.err) && net.Data? then Stream(old(c.ops)) + net.bytes else Stream(old(c.ops))
      ensures old(Reaches(conn)) && (old(c.err) || net.Eof? || net.ReadFailed?) ==> end.Freed?
      ensures c.err ==> old(c.err) || !old(Reaches(conn)) || net.Eof? || net.ReadFailed? || Fault()
      ensures Alive() ==> connected == old(Reaches(conn)) && c.err == !connected
      ensures Alive() && connected && disconnecting ==> replies.contents != [] || c.obuf.len > 0
    {
      if !connected {
        HandleConnect(conn);
        if end.Freed? || !connected { return; }
      }
      ReadConnected(net);
    }

    method ReadConnected(net: ReadResult)
      requires Valid() && Through() && Alive() && connected
      modifies this, c, c.obuf, replies
      ensures (c.obuf == old(c.obuf) || fresh(c.obuf)) && Valid() && Through()
      ensures Onward(old(View()), View()) && outs == old(outs)
      ensures Stream(c.ops) == Fed(Stream(old(c.ops)), net, !old(c.err))
      ensures old(c.err) || ReadBreaks(net, false) ==> end.Freed?
      ensures c.err ==> old(c.err) || ReadBreaks(net, false) || Fault()
      ensures Alive() ==> connected && !c.err
      ensures Alive() && disconnecting ==> replies.contents != [] || c.obuf.len > 0
    {
      var ok := c.BufferRead(net);
      if !ok {
        AsyncDisconnect();
      } else {
        ProcessCallbacks();
      }
    }

    /** redisAsyncHandleWrite: bytes leave the output buffer in order. */
    method HandleWrite(conn: ConnectResult, net: WriteResult)
      requires Valid() && Alive()
      modifies this, c`err, c`obuf, c`sent, c`appended, c.obuf, replies
      ensures (c.obuf == old(c.obuf) || fresh(c.obuf)) && Valid()
      ensures Onward(old(View()), View()) && outs == old(outs)
      ensures old(c.sent) <= c.sent
      ensures old(Reaches(conn) && !c.err) && net.Wrote? ==>
                && Alive()
                && |c.sent| == if |old(c.sent)| + net.n < |c.appended| then |old(c.sent)| + net.n else |c.appended|
      ensures !(old(Reaches(conn) && !c.err) && net.Wrote?) ==> c.sent == old(c.sent)
      ensures old(Reaches(conn) && c.err) ==> end.Freed?
      ensures c.err ==> old(c.err) || !old(Reaches(conn)) || net.WriteFailed?
      ensures Alive() ==> connected == old(Reaches(conn)) && (connected ==> !c.err) && (!connected ==> c.err)
    {
      if !connected {
        HandleConnect(conn);
        if end.Freed? || !connected { return; }
      }
      WriteConnected(net);
    }

    method WriteConnected(net: WriteResult)
      requires Valid() && Alive()
      modifies this, c`err, c`obuf, c`sent, c`appended, c.obuf, replies
      ensures (c.obuf == old(c.obuf) || fresh(c.obuf)) && Valid() && old(c.sent) <= c.sent
      ensures Onward(old(View()), View()) && outs == old(outs)
      ensures !old(c.err) && net.Wrote? ==>
                && Alive()
                && |c.sent| == if |old(c.sent)| + net.n < |c.appended| then |old(c.sent)| + net.n else |c.appended|
      ensures old(c.err) || !net.Wrote? ==> c.sent == old(c.sent)
      ensures end.Freed? <==> old(c.err) || (old(c.obuf.len) > 0 && net.WriteFailed?)
      ensures c.err ==> old(c.err) || net.WriteFailed?
      ensures Alive() ==> connected == old(connected) && !c.err
    {
      var ok, done := c.BufferWrite(Taken(net, c.obuf.len));
      if !ok {
        AsyncDisconnect();
      }
    }
  }
}
