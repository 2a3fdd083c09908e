/** Whole runs of an asynchronous context: any sequence of socket events and of
    calls of the user between callbacks. */
module AsyncRuns {
  import opened Bytes
  import opened Resp
  import opened Machine
  import opened Contexts
  import opened CallbackLists
  import opened DeliveryBooks
  import opened AsyncTraces
  import opened AsyncContexts

  /** What the event loop and the user do to a context between callbacks. */
  datatype Event =
    | OnReadable(conn: ConnectResult, incoming: ReadResult)
    | OnWritable(conn: ConnectResult, outgoing: WriteResult)
    | UserCommand(cb: Callback, cmd: seq<Byte>)
    | UserDisconnect
    | UserFree

  function FedBy(before: seq<Byte>, e: Event): seq<Byte> {
    if e.OnReadable? then Fed(before, e.incoming, true) else before
  }

  /** The call of the API that a user event is. */
  function ActionOf(e: Event): seq<Action> {
    match e
    case UserCommand(cb, cmd) => [IssueCommand(cb, cmd)]
    case UserDisconnect => [RequestDisconnect]
    case UserFree => [RequestFree]
    case _ => []
  }

  predicate Closes(e: Event) {
    e.UserDisconnect? || e.UserFree?
  }

  /** All bytes the socket delivers during the events. */
  function Arrived(events: seq<Event>): seq<Byte> {
    if events == [] then [] else FedBy(Arrived(events[..|events| - 1]), events[|events| - 1])
  }

  /** The calls the user makes between callbacks, in order. */
  function UserActions(events: seq<Event>): seq<Action> {
    if events == [] then [] else UserActions(events[..|events| - 1]) + ActionOf(events[|events| - 1])
  }

  /** What the events alone say of the connection: whether it is up, and whether
      something broke it. */
  datatype Link = Link(up: bool, broken: bool)

  predicate OnSocket(e: Event) {
    e.OnReadable? || e.OnWritable?
  }

  function UpAfter(up: bool, e: Event): bool {
    up || (OnSocket(e) && e.conn.Connected?)
  }

  /** A connect that fails or is still pending, end of file, a failed read or write. */
  predicate Breaks(up: bool, e: Event) {
    && OnSocket(e)
    && (|| !UpAfter(up, e)
        || (e.OnReadable? && ReadBreaks(e.incoming, false))
        || (e.OnWritable? && e.outgoing.WriteFailed?))
  }

  function LinkAfter(l: Link, e: Event): Link {
    Link(UpAfter(l.up, e), l.broken || Breaks(l.up, e))
  }

  function LinkOf(events: seq<Event>): Link {
    if events == [] then Link(false, false)
    else LinkAfter(LinkOf(events[..|events| - 1]), events[|events| - 1])
  }

  lemma OneMore(done: seq<Event>, e: Event)
    ensures Arrived(done + [e]) == FedBy(Arrived(done), e)
    ensures UserActions(done + [e]) == UserActions(done) + ActionOf(e)
    ensures LinkOf(done + [e]) == LinkAfter(LinkOf(done), e)
  {
    assert (done + [e])[..|done|] == done;
  }

  // ----- What the reader was given -----

  /** The reader was fed a beginning of what arrived, or `all` of it. */
  ghost predicate Heard(stream: seq<Byte>, done: seq<Event>, all: bool) {
    stream <= Arrived(done) && (all ==> stream == Arrived(done))
  }

  lemma HeardGrows(stream: seq<Byte>, done: seq<Event>, e: Event, all: bool, stream': seq<Byte>, all': bool)
    requires Heard(stream, done, all)
    requires stream' == stream || (all && stream' == FedBy(stream, e))
    requires all' ==> all && stream' == FedBy(stream, e)
    ensures Heard(stream', done + [e], all')
  {
    OneMore(done, e);
  }

  // ----- Steps of a context, as the events see them -----

  /** What a run looks at between two events. */
  datatype Snap = Snap(alive: bool, freed: bool, closing: bool, connected: bool, err: bool, fault: bool,
                       outs: seq<Action>, stream: seq<Byte>)

  ghost function SnapOf(ac: AsyncContext): Snap
    reads ac, ac.c
  {
    Snap(ac.Alive(), ac.end.Freed?, ac.Closing(), ac.connected, ac.c.err, ac.Fault(), ac.outs, Stream(ac.c.ops))
  }

  /** What one event may do: the call of a user event is made, closing and freeing
      are done when asked for, exactly the bytes read are fed, and an error has its
      cause in the event or in the input. */
  ghost predicate Moves(s: Snap, e: Event, s': Snap) {
    && s'.outs == s.outs + ActionOf(e)
    && (s.closing || Closes(e) || s'.freed ==> s'.closing)
    && (e.UserFree? ==> s'.freed)
    && (s'.stream == s.stream || (!s.err && s'.stream == FedBy(s.stream, e)))
    && (s'.alive && !s'.err ==> !s.err && s'.stream == FedBy(s.stream, e))
    && (s'.alive ==> s'.connected == UpAfter(s.connected, e))
    && (s'.err ==> s.err || Breaks(s.connected, e) || s'.fault)
    && (s'.alive ==> !s'.fault)
  }

  /** The context fits what the events say of the connection. */
  ghost predicate LinkFits(s: Snap, l: Link) {
    && (s.alive ==> s.connected == l.up && !s.fault)
    && (s.err ==> l.broken || s.fault)
  }

  /** What arrives is what the reads bring, one after the other. */
  lemma ArrivedIs(done: seq<Event>, e: Event)
    ensures Arrived([]) == []
    ensures e.OnReadable? && e.incoming.Data? ==> Arrived(done + [e]) == Arrived(done) + e.incoming.bytes
    ensures !(e.OnReadable? && e.incoming.Data?) ==> Arrived(done + [e]) == Arrived(done)
  {
    OneMore(done, e);
  }

  /** The user's calls are the user's events, one after the other. */
  lemma UserActionsAre(done: seq<Event>, e: Event)
    ensures UserActions([]) == []
    ensures e.UserCommand? ==> UserActions(done + [e]) == UserActions(done) + [IssueCommand(e.cb, e.cmd)]
    ensures e.UserDisconnect? ==> UserActions(done + [e]) == UserActions(done) + [RequestDisconnect]
    ensures e.UserFree? ==> UserActions(done + [e]) == UserActions(done) + [RequestFree]
    ensures e.OnReadable? || e.OnWritable? ==> UserActions(done + [e]) == UserActions(done)
  {
    OneMore(done, e);
  }

  /** The connection is up from the first socket event that finds it connected. A
      socket event breaks it that finds it neither up nor connected, or that brings
      end of file, a failed read or a failed write; no other event does. */
  lemma LinkIs(done: seq<Event>, e: Event)
    ensures LinkOf([]) == Link(false, false)
    ensures e.UserCommand? || e.UserDisconnect? || e.UserFree? ==> LinkOf(done + [e]) == LinkOf(done)
    ensures e.OnReadable? || e.OnWritable? ==> LinkOf(done + [e]).up == (LinkOf(done).up || e.conn.Connected?)
    ensures e.OnReadable? ==>
              LinkOf(done + [e]).broken ==
              (LinkOf(done).broken || !LinkOf(done + [e]).up || e.incoming.Eof? || e.incoming.ReadFailed?)
    ensures e.OnWritable? ==>
              LinkOf(done + [e]).broken == (LinkOf(done).broken || !LinkOf(done + [e]).up || e.outgoing.WriteFailed?)
  {
    OneMore(done, e);
  }

  /** What is known after the events `done`. */
  ghost predicate Fits(s: Snap, done: seq<Event>) {
    && LinkFits(s, LinkOf(done))
    && Heard(s.stream, done, s.alive && !s.err)
    && s.outs == UserActions(done)
    && (forall i :: 0 <= i < |done| && done[i].UserFree? ==> s.freed)
  }

  lemma FitsStart(s: Snap)
    requires s.alive && !s.closing && !s.connected && !s.err && !s.fault && s.outs == [] && s.stream == []
    ensures Fits(s, [])
  {
  }

  lemma FitsGrows(s: Snap, e: Event, s': Snap, done: seq<Event>)
    requires Fits(s, done) && s.alive && !s.freed && Moves(s, e, s')
    ensures Fits(s', done + [e])
  {
    OneMore(done, e);
    HeardGrows(s.stream, done, e, !s.err, s'.stream, s'.alive && !s'.err);
    assert forall i :: 0 <= i < |done| ==> (done + [e])[i] == done[i];
  }

  // ----- Runs -----

  ghost predicate Driven(ac: AsyncContext, done: seq<Event>)
    reads ac, ac.c, ac.c.obuf, ac.replies
  {
    ac.Valid() && ac.Through() && Fits(SnapOf(ac), done)
  }

  /** One event, whatever it is and whatever user code does meanwhile. */
  method HandleEvent(ac: AsyncContext, e: Event)
    requires ac.Valid() && ac.Through() && ac.Alive()
    modifies ac, ac.c, ac.c.obuf, ac.replies
    ensures (ac.c.obuf == old(ac.c.obuf) || fresh(ac.c.obuf)) && ac.Valid() && ac.Through()
    ensures Moves(old(SnapOf(ac)), e, SnapOf(ac))
  {
    if OnSocket(e) {
      HandleSocket(ac, e);
    } else {
      HandleUser(ac, e);
    }
  }

  method HandleSocket(ac: AsyncContext, e: Event)
    requires ac.Valid() && ac.Through() && ac.Alive() && OnSocket(e)
    modifies ac, ac.c, ac.c.obuf, ac.replies
    ensures (ac.c.obuf == old(ac.c.obuf) || fresh(ac.c.obuf)) && ac.Valid() && ac.Through()
    ensures Moves(old(SnapOf(ac)), e, SnapOf(ac))
  {
    match e {
      case OnReadable(conn, net) => ac.HandleRead(conn, net);
      case OnWritable(conn, net) => ac.HandleWrite(conn, net);
    }
  }

  method HandleUser(ac: AsyncContext, e: Event)
    requires ac.Valid() && ac.Through() && ac.Alive() && !OnSocket(e)
    modifies ac, ac.c, ac.c.obuf, ac.replies
    ensures (ac.c.obuf == old(ac.c.obuf) || fresh(ac.c.obuf)) && ac.Valid() && ac.Through()
    ensures Moves(old(SnapOf(ac)), e, SnapOf(ac))
  {
    match e {
      case UserCommand(cb, cmd) => var _ := ac.Submit(cb, cmd);
      case UserDisconnect => ac.Disconnect();
      case UserFree => ac.Free();
    }
  }

  method DriveOne(ac: AsyncContext, e: Event, ghost done: seq<Event>)
    requires ac.Alive() && Driven(ac, done)
    modifies ac, ac.c, ac.c.obuf, ac.replies
    ensures (ac.c.obuf == old(ac.c.obuf) || fresh(ac.c.obuf)) && Driven(ac, done + [e])
  {
    ghost var s := SnapOf(ac);
    HandleEvent(ac, e);
    FitsGrows(s, e, SnapOf(ac), done);
  }

  /** The event loop from event `i` on. */
  method DriveFrom(ac: AsyncContext, events: seq<Event>, i: nat) returns (n: nat)
    requires i <= |events| && Driven(ac, events[..i])
    modifies ac, ac.c, ac.c.obuf, ac.replies
    ensures n <= |events| && Driven(ac, events[..n])
    ensures n == |events| || ac.end.Freed? || ac.end.Aborted?
    decreases |events| - i
  {
    if i == |events| || ac.end.Freed? || ac.end.Aborted? {
      return i;
    }
    NextSlice(events, i);
    DriveOne(ac, events[i], events[..i]);
    n := DriveFrom(ac, events, i + 1);
  }

  lemma NextSlice(events: seq<Event>, i: nat)
    requires i < |events|
    ensures events[..i + 1] == events[..i] + [events[i]]
  {
  }

  /** The calls of user code are those the accepted commands deserve: command i has
      been given reply i, or NULL if the context was freed without that reply. */
  ghost predicate RightCalls(ac: AsyncContext)
    reads ac, ac.c
  {
    && (ac.end.Freed? ==>
          && ac.tally.answered <= |ac.c.handed|
          && ac.tally.answered == (if |ac.c.handed| < |ac.orders.accepted| then |ac.c.handed| else |ac.orders.accepted|)
          && ac.log == Runs(Deliveries(ac.orders.accepted, ac.c.handed, ac.tally.answered)))
    && (ac.Alive() ==>
          && |ac.c.handed| <= |ac.orders.accepted|
          && ac.log == Runs(Deliveries(ac.orders.accepted[..|ac.c.handed|], ac.c.handed, |ac.c.handed|)))
  }

  /** The accepted commands are exactly those the user asked for before anything
      closed the context: by the events `done`, by each call of user code that was
      made, once, and by the connect hook, at most once. */
  ghost predicate RightOrders(ac: AsyncContext, done: seq<Event>)
    reads ac
  {
    && ac.orders == Granted(Flatten(ac.user, ac.trace))
    && OutsideOf(ac.trace) == UserActions(done)
    && Numbered(ac.trace, |ac.log|) && HookRuns(ac.trace) <= 1
  }

  /** The replies taken are those of the bytes fed, all of them that are complete
      unless a callback asked to free the context or a reply came unasked. */
  ghost predicate RightReplies(ac: AsyncContext)
    reads ac, ac.c
  {
    var all := ParseAll(Stream(ac.c.ops)).replies;
    && ac.c.handed <= all
    && (CutShort(ac.user, ac.trace) || |ac.c.handed| > |ac.orders.accepted| || ac.c.handed == all)
  }

  /** A context is freed because the user asked to free it, or asked to disconnect
      and has all replies, or because the connection broke or the input is faulty. */
  ghost predicate RightEnd(ac: AsyncContext, l: Link)
    reads ac, ac.c
  {
    && (ac.end.Freed? ==>
          || Wanted(ac.user, ac.trace, RequestFree)
          || (Wanted(ac.user, ac.trace, RequestDisconnect) && |ac.c.handed| == |ac.orders.accepted|)
          || l.broken || ParseAll(Stream(ac.c.ops)).fault.Some? || |ac.c.handed| > |ac.orders.accepted|)
    && (ac.end.Aborted? ==> |ac.c.handed| > |ac.orders.accepted|)
  }

  lemma OrdersAreRight(ac: AsyncContext, done: seq<Event>)
    requires Driven(ac, done)
    ensures RightOrders(ac, done)
  {
    TellsMeans(ac.user, ac.trace, ac.View(), ac.outs, |ac.log|, ac.hooked, ac.c.err);
    OrdersAreGranted(ac.user, ac.trace);
  }

  lemma CallsAreRight(ac: AsyncContext)
    requires ac.Valid()
    ensures RightCalls(ac)
  {
    LedgerIsDeliveries(ac.tally.served, ac.tally.consumed, ac.c.handed, ac.tally.answered);
    assert ac.orders.accepted[..|ac.tally.served|] == ac.tally.served;
    assert ac.end.Freed? ==> ac.orders.accepted == ac.tally.served;
  }

  lemma RepliesAreRight(ac: AsyncContext)
    requires ac.Valid() && ac.Through()
    ensures RightReplies(ac)
    ensures ac.c.reader.Dead? ==> ParseAll(Stream(ac.c.ops)).fault.Some?
  {
    TellsMeans(ac.user, ac.trace, ac.View(), ac.outs, |ac.log|, ac.hooked, ac.c.err);
    FlagsAreWanted(ac.user, ac.trace);
    HistoryIsPrefix(ac.c.ops, ac.c.reader, ac.c.handed);
    if Quiet(ac.c.reader) {
      HistoryIsComplete(ac.c.ops, ac.c.reader, ac.c.handed);
    }
  }

  lemma EndIsRight(ac: AsyncContext, l: Link)
    requires ac.Valid() && LinkFits(SnapOf(ac), l)
    requires ac.c.reader.Dead? ==> ParseAll(Stream(ac.c.ops)).fault.Some?
    ensures RightEnd(ac, l)
  {
    TellsMeans(ac.user, ac.trace, ac.View(), ac.outs, |ac.log|, ac.hooked, ac.c.err);
    FlagsAreWanted(ac.user, ac.trace);
  }

  /** Every run, whatever the events, the network, the chunking and the user's code
      do. The run handles all events unless the context is freed or the program
      aborts first. The commands accepted are exactly those the user asked for before
      anything closed the context, each once and in order. User code is called
      exactly for those of them that have a callback, once each and in that order,
      command i with the i-th reply of the input; NULL is given only when the context
      is freed, and by then every complete reply has been dispatched unless a callback
      asked to free the context. The context is freed only for a reason. The bytes
      sent followed by the output buffer are exactly the accepted commands. The
      program aborts only if the server sends a reply nobody asked for. */
  method Drive(events: seq<Event>, onDisconnect: bool, user: Program) returns (ac: AsyncContext, n: nat)
    requires OnlyCommands(user.hook)
    ensures n <= |events| && Driven(ac, events[..n]) && ac.user == user
    ensures n == |events| || ac.end.Freed? || ac.end.Aborted?
    ensures RightOrders(ac, events[..n]) && RightCalls(ac) && RightReplies(ac)
    ensures RightEnd(ac, LinkOf(events[..n]))
    ensures ac.c.sent + ac.c.obuf.Contents() == Joined(ac.orders.cmds)
  {
    ac := new AsyncContext(onDisconnect, user);
    FitsStart(SnapOf(ac));
    n := DriveFrom(ac, events, 0);
    OrdersAreRight(ac, events[..n]);
    CallsAreRight(ac);
    RepliesAreRight(ac);
    EndIsRight(ac, LinkOf(events[..n]));
  }
}
