/** What becomes of accepted commands, as values: which callback is given which
    reply, and which of them call user code. */
module DeliveryBooks {
  import opened Bytes
  import opened Resp
  import opened CallbackLists

  /** A callback taken off the pending list, with the reply it was given (None is NULL). */
  datatype Delivery = Delivery(cb: Callback, reply: Option<Reply>)

  /** The deliveries that call user code: those with a function. */
  function Runs(ds: seq<Delivery>): seq<Delivery> {
    if ds == [] then [] else Called(Runs(ds[..|ds| - 1]), ds[|ds| - 1])
  }

  /** A delivery calls user code if its callback has a function. */
  function Called(calls: seq<Delivery>, d: Delivery): seq<Delivery> {
    if d.cb.fn then calls + [d] else calls
  }

  lemma RunsGrow(ds: seq<Delivery>, d: Delivery)
    ensures Runs(ds + [d]) == Called(Runs(ds), d)
  {
    assert (ds + [d])[..|ds|] == ds;
  }

  /** Command i is given reply i if `n` replies were dispatched, and NULL otherwise. */
  function Deliveries(accepted: seq<Callback>, got: seq<Reply>, n: nat): seq<Delivery>
    requires n <= |got|
  {
    seq(|accepted|, i requires 0 <= i < |accepted| =>
      Delivery(accepted[i], if i < n then Some(got[i]) else None))
  }

  /** Each accepted command has one delivery, with its own callback. */
  lemma DeliveriesAre(accepted: seq<Callback>, got: seq<Reply>, n: nat, i: nat)
    requires n <= |got| && i < |accepted|
    ensures |Deliveries(accepted, got, n)| == |accepted| && Deliveries(accepted, got, n)[i].cb == accepted[i]
    ensures Deliveries(accepted, got, n)[i].reply == if i < n then Some(got[i]) else None
  {
  }

  /** Commands are consumed in acceptance order, the first `n` with their own reply.
      `served` are the callbacks of those consumed. */
  ghost predicate Ledger(served: seq<Callback>, consumed: seq<Delivery>, got: seq<Reply>, n: nat) {
    && n <= |consumed| == |served| && n <= |got|
    && forall i {:trigger consumed[i]} :: 0 <= i < |consumed| ==>
         consumed[i] == Delivery(served[i], if i < n then Some(got[i]) else None)
  }

  lemma LedgerShifts(served: seq<Callback>, consumed: seq<Delivery>, got: seq<Reply>, n: nat,
                     cb: Callback, reply: Option<Reply>)
    requires Ledger(served, consumed, got, n)
    requires reply.Some? ==> n == |consumed| < |got| && reply.value == got[n]
    ensures Ledger(served + [cb], consumed + [Delivery(cb, reply)], got, n + if reply.Some? then 1 else 0)
  {
  }

  lemma LedgerIsDeliveries(served: seq<Callback>, consumed: seq<Delivery>, got: seq<Reply>, n: nat)
    requires Ledger(served, consumed, got, n)
    ensures consumed == Deliveries(served, got, n)
  {
    var ds := Deliveries(served, got, n);
    assert |ds| == |consumed| && forall i :: 0 <= i < |consumed| ==> ds[i] == consumed[i];
  }

  lemma QueueShifts(served: seq<Callback>, queue: seq<Callback>)
    requires queue != []
    ensures served + [queue[0]] + queue[1..] == served + queue
  {
  }

  /** The commands of a connection, one behind the other. */
  function Joined(cmds: seq<seq<Byte>>): seq<Byte> {
    if cmds == [] then [] else Joined(cmds[..|cmds| - 1]) + cmds[|cmds| - 1]
  }

  lemma JoinedGrows(cmds: seq<seq<Byte>>, cmd: seq<Byte>)
    ensures Joined(cmds + [cmd]) == Joined(cmds) + cmd
  {
    assert (cmds + [cmd])[..|cmds|] == cmds;
  }

  /** Callbacks and bytes of the commands accepted so far. */
  datatype Orders = Orders(accepted: seq<Callback>, cmds: seq<seq<Byte>>)

  /** The callbacks taken off the list, what they were given, and how many of them
      were given a reply. */
  datatype Tally = Tally(served: seq<Callback>, consumed: seq<Delivery>, answered: nat)

  /** Both agree with the pending list, the replies taken and the bytes appended. */
  ghost predicate Balanced(o: Orders, t: Tally, pending: seq<Callback>, got: seq<Reply>, appended: seq<Byte>) {
    && o.accepted == t.served + pending
    && Ledger(t.served, t.consumed, got, t.answered)
    && |o.cmds| == |o.accepted| && appended == Joined(o.cmds)
  }

  function Accept(o: Orders, cb: Callback, cmd: seq<Byte>): Orders {
    Orders(o.accepted + [cb], o.cmds + [cmd])
  }

  function Consume(t: Tally, cb: Callback, reply: Option<Reply>): Tally {
    Tally(t.served + [cb], t.consumed + [Delivery(cb, reply)], if reply.Some? then t.answered + 1 else t.answered)
  }

  /** The next command is due this reply. */
  ghost predicate Due(t: Tally, got: seq<Reply>, reply: Reply) {
    t.answered == |t.consumed| < |got| && got[t.answered] == reply
  }

  lemma AcceptBalances(o: Orders, t: Tally, pending: seq<Callback>, got: seq<Reply>, appended: seq<Byte>,
                       cb: Callback, cmd: seq<Byte>)
    requires Balanced(o, t, pending, got, appended)
    ensures Balanced(Accept(o, cb, cmd), t, pending + [cb], got, appended + cmd)
  {
    Assoc(t.served, pending, [cb]);
    JoinedGrows(o.cmds, cmd);
  }

  lemma ConsumeBalances(o: Orders, t: Tally, pending: seq<Callback>, got: seq<Reply>, appended: seq<Byte>,
                        reply: Option<Reply>)
    requires Balanced(o, t, pending, got, appended) && pending != []
    requires reply.Some? ==> Due(t, got, reply.value)
    ensures Balanced(o, Consume(t, pending[0], reply), pending[1..], got, appended)
  {
    QueueShifts(t.served, pending);
    LedgerShifts(t.served, t.consumed, got, t.answered, pending[0], reply);
  }

  lemma MoreReplies(o: Orders, t: Tally, pending: seq<Callback>, got: seq<Reply>, appended: seq<Byte>, more: seq<Reply>)
    requires Balanced(o, t, pending, got, appended) && got <= more
    ensures Balanced(o, t, pending, more, appended)
  {
  }

  /** Nothing accepted is ever taken back. */
  predicate Extends(o: Orders, o': Orders) {
    o.accepted <= o'.accepted && o.cmds <= o'.cmds
  }

  /** Every reply taken from the reader was given to its command; only an error
      reply that nobody asked for is left over. */
  ghost predicate Settled(o: Orders, t: Tally, got: seq<Reply>) {
    || t.answered == |got|
    || (t.answered == |o.accepted| && |got| == t.answered + 1 && got[t.answered].Error?)
  }

  /** Why a closing context may be torn down: an error, a request to free it, or
      nothing left to wait for. */
  ghost predicate Grounds(err: bool, freeing: bool, o: Orders, got: seq<Reply>) {
    err || freeing || |got| == |o.accepted|
  }

  /** While a context lives, every reply taken has been given to its command. */
  ghost predicate LiveBooks(freeing: bool, t: Tally, got: seq<Reply>) {
    t.answered == |t.consumed| == |got| && !freeing
  }

  /** When it is freed, nothing is pending any more. */
  ghost predicate ClosedBooks(closing: bool, err: bool, freeing: bool, o: Orders, t: Tally,
                              pending: seq<Callback>, got: seq<Reply>)
  {
    pending == [] && Settled(o, t, got) && closing && Grounds(err, freeing, o, got)
  }

  /** The program aborts on a reply that nobody asked for. */
  ghost predicate AbortedBooks(o: Orders, t: Tally, pending: seq<Callback>, got: seq<Reply>) {
    && pending == [] && t.answered == |t.consumed| == |o.accepted|
    && |got| == |o.accepted| + 1 && !got[|o.accepted|].Error?
  }

  /** Delivery i with a function is entry number |Runs(ds[..i])| of the calls. */
  lemma {:induction false} RunsInOrder(ds: seq<Delivery>, i: nat)
    requires i < |ds| && ds[i].cb.fn
    ensures |Runs(ds[..i])| < |Runs(ds)| && Runs(ds)[|Runs(ds[..i])|] == ds[i]
    decreases |ds|
  {
    var n := |ds| - 1;
    if i < n {
      RunsInOrder(ds[..n], i);
      assert ds[..n][..i] == ds[..i];
    }
  }

  function CallsOf(calls: seq<Delivery>, cb: Callback): nat {
    if calls == [] then 0
    else CallsOf(calls[..|calls| - 1], cb) + if calls[|calls| - 1].cb == cb then 1 else 0
  }

  function TimesAccepted(cbs: seq<Callback>, cb: Callback): nat {
    if cbs == [] then 0
    else TimesAccepted(cbs[..|cbs| - 1], cb) + if cbs[|cbs| - 1] == cb then 1 else 0
  }

  /** A callback with a function is called exactly as often as it was accepted,
      and a NULL callback never. */
  lemma {:induction false} CalledAsOftenAsAccepted(accepted: seq<Callback>, got: seq<Reply>, n: nat, cb: Callback)
    requires n <= |got|
    ensures CallsOf(Runs(Deliveries(accepted, got, n)), cb) == if cb.fn then TimesAccepted(accepted, cb) else 0
    decreases |accepted|
  {
    if accepted != [] {
      var k := |accepted| - 1;
      var ds := Deliveries(accepted, got, n);
      assert ds[..k] == Deliveries(accepted[..k], got, n);
      CalledAsOftenAsAccepted(accepted[..k], got, n, cb);
      var calls := Runs(ds);
      if ds[k].cb.fn {
        assert calls[..|calls| - 1] == Runs(ds[..k]);
      } else {
        assert calls == Runs(ds[..k]);
      }
    }
  }
}
