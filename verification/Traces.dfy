/** What users of an asynchronous context ask for, as values: requests made between
    callbacks, inside callbacks and by the connect hook, in the order they are made,
    and what a context that follows them has accepted. */
module AsyncTraces {
  import opened Bytes
  import opened CallbackLists
  import opened DeliveryBooks

  /** A call of the API by the user. */
  datatype Action = IssueCommand(cb: Callback, cmd: seq<Byte>) | RequestDisconnect | RequestFree

  /** Who asks: the user between callbacks, the n-th call of user code, or the
      connect hook. A broken connection closes the context like a request. */
  datatype Source = Outside(a: Action) | Inside(call: nat) | Hook | Broke

  /** What the user's code does: its n-th call, and the commands of the connect hook. */
  datatype Program = Program(script: nat -> seq<Action>, hook: seq<Action>)

  /** Requests to close made between callbacks (`outside`) or inside one (`inside`),
      and a request to free the context made inside one (`cut`). */
  datatype Wishes = Wishes(outside: bool, inside: bool, cut: bool)

  /** What requests change: the closing flags, the wishes behind them, the commands. */
  datatype Gate = Gate(disconnecting: bool, freeing: bool, wishes: Wishes, orders: Orders)

  const OPEN_GATE: Gate := Gate(false, false, Wishes(false, false, false), Orders([], []))

  predicate Shut(g: Gate) {
    g.disconnecting || g.freeing
  }

  /** One call of the API from inside a callback. */
  function Acted(g: Gate, a: Action): Gate {
    match a
    case IssueCommand(cb, cmd) => if Shut(g) then g else g.(orders := Accept(g.orders, cb, cmd))
    case RequestDisconnect => g.(disconnecting := true, wishes := g.wishes.(inside := true))
    case RequestFree => g.(freeing := true, wishes := g.wishes.(inside := true, cut := true))
  }

  function ActedAll(g: Gate, script: seq<Action>): Gate
    decreases |script|
  {
    if script == [] then g else ActedAll(Acted(g, script[0]), script[1..])
  }

  /** One call of the API between callbacks. */
  function ActedOutside(g: Gate, a: Action): Gate {
    match a
    case IssueCommand(_, _) => Acted(g, a)
    case RequestDisconnect => g.(disconnecting := true, wishes := g.wishes.(outside := true))
    case RequestFree => g.(freeing := true, wishes := g.wishes.(outside := true))
  }

  function Moved(p: Program, g: Gate, s: Source): Gate {
    match s
    case Outside(a) => ActedOutside(g, a)
    case Inside(k) => ActedAll(g, p.script(k))
    case Hook => ActedAll(g, p.hook)
    case Broke => g.(disconnecting := true)
  }

  /** Where a trace of requests leads. */
  function GateOf(p: Program, trace: seq<Source>): Gate {
    if trace == [] then OPEN_GATE else Moved(p, GateOf(p, trace[..|trace| - 1]), trace[|trace| - 1])
  }

  // ----- What user code cannot do -----

  /** Commands may be added and the gate may be shut, but not reopened. */
  predicate Onward(g: Gate, g': Gate) {
    Extends(g.orders, g'.orders) && (Shut(g) ==> Shut(g'))
  }

  /** User code cannot enqueue once the gate is shut, nor take back a wish, and it
      frees the context only by asking for it. */
  predicate Narrows(g: Gate, g': Gate) {
    && Onward(g, g')
    && (Shut(g) ==> g'.orders == g.orders)
    && (g.disconnecting ==> g'.disconnecting) && (g.freeing ==> g'.freeing)
    && (g.wishes.cut || (g'.freeing && !g.freeing) ==> g'.wishes.cut)
  }

  lemma NarrowsTwice(g: Gate, g1: Gate, g2: Gate)
    requires Narrows(g, g1) && Narrows(g1, g2)
    ensures Narrows(g, g2)
  {
  }

  lemma {:induction false} ActedNarrows(g: Gate, script: seq<Action>)
    ensures Narrows(g, ActedAll(g, script))
    decreases |script|
  {
    if script != [] {
      var g1 := Acted(g, script[0]);
      ActedNarrows(g1, script[1..]);
      NarrowsTwice(g, g1, ActedAll(g1, script[1..]));
    }
  }

  predicate OnlyCommands(script: seq<Action>) {
    forall i :: 0 <= i < |script| ==> script[i].IssueCommand?
  }

  lemma {:induction false} ScriptFlags(g: Gate, script: seq<Action>)
    ensures var g' := ActedAll(g, script);
            && (g'.freeing <==> g.freeing || RequestFree in script)
            && (g'.disconnecting <==> g.disconnecting || RequestDisconnect in script)
            && (g'.wishes.cut <==> g.wishes.cut || RequestFree in script)
    decreases |script|
  {
    if script != [] {
      assert script == [script[0]] + script[1..];
      ScriptFlags(Acted(g, script[0]), script[1..]);
    }
  }

  lemma CommandsKeepFlags(g: Gate, script: seq<Action>)
    requires OnlyCommands(script)
    ensures var g' := ActedAll(g, script);
            g'.freeing == g.freeing && g'.disconnecting == g.disconnecting && g'.wishes.cut == g.wishes.cut
  {
    ScriptFlags(g, script);
  }

  // ----- The shape of a trace -----

  /** The requests made between callbacks, in order. */
  function OutsideOf(trace: seq<Source>): seq<Action> {
    if trace == [] then []
    else
      var rest, s := OutsideOf(trace[..|trace| - 1]), trace[|trace| - 1];
      if s.Outside? then rest + [s.a] else rest
  }

  /** The calls of user code in the trace are those numbered 0 to n - 1, in order. */
  predicate Numbered(trace: seq<Source>, n: nat) {
    if trace == [] then n == 0
    else
      var rest, s := trace[..|trace| - 1], trace[|trace| - 1];
      if s.Inside? then s.call == n - 1 && Numbered(rest, s.call) else Numbered(rest, n)
  }

  /** How often the connect hook has run. */
  function HookRuns(trace: seq<Source>): nat {
    if trace == [] then 0
    else HookRuns(trace[..|trace| - 1]) + if trace[|trace| - 1].Hook? then 1 else 0
  }

  /** What a trace adds up to: gate, requests between callbacks, number of calls and
      of hook runs, whether the connection broke, and whether the calls are numbered
      as they come. */
  datatype Telling = Telling(gate: Gate, outs: seq<Action>, calls: nat, hooks: nat, broke: bool, numbered: bool)

  function ToldMore(p: Program, t: Telling, s: Source): Telling {
    var t' := t.(gate := Moved(p, t.gate, s));
    match s
    case Outside(a) => t'.(outs := t.outs + [a])
    case Inside(k) => t'.(calls := t.calls + 1, numbered := t.numbered && k == t.calls)
    case Hook => t'.(hooks := t.hooks + 1)
    case Broke => t'.(broke := true)
  }

  function Told(p: Program, trace: seq<Source>): Telling {
    if trace == [] then Telling(OPEN_GATE, [], 0, 0, false, true)
    else ToldMore(p, Told(p, trace[..|trace| - 1]), trace[|trace| - 1])
  }

  /** `trace` tells how the context came to the gate `g`: requests `outs` between
      callbacks, `calls` calls of user code, the hook if it has run, and a broken
      connection only after an error. */
  ghost predicate Tells(p: Program, trace: seq<Source>, g: Gate, outs: seq<Action>,
                        calls: nat, hooked: bool, err: bool)
  {
    && Told(p, trace) == Telling(g, outs, calls, if hooked then 1 else 0, Told(p, trace).broke, true)
    && (Told(p, trace).broke ==> err) && (g.wishes.cut ==> g.freeing)
  }

  lemma TellsNothing(p: Program)
    ensures Tells(p, [], OPEN_GATE, [], 0, false, false)
  {
  }

  lemma TellsMore(p: Program, trace: seq<Source>, g: Gate, outs: seq<Action>,
                  calls: nat, hooked: bool, err: bool, s: Source)
    requires Tells(p, trace, g, outs, calls, hooked, err)
    requires (s.Inside? ==> s.call == calls) && (s.Hook? ==> !hooked) && (s.Broke? ==> err)
    ensures Tells(p, trace + [s], Moved(p, g, s), if s.Outside? then outs + [s.a] else outs,
                  if s.Inside? then calls + 1 else calls, hooked || s.Hook?, err)
  {
    assert (trace + [s])[..|trace|] == trace;
    if s.Inside? {
      ScriptFlags(g, p.script(s.call));
    } else if s.Hook? {
      ScriptFlags(g, p.hook);
    }
  }

  lemma {:induction false} ToldIs(p: Program, trace: seq<Source>)
    ensures var t := Told(p, trace);
            && t.gate == GateOf(p, trace) && t.outs == OutsideOf(trace) && t.hooks == HookRuns(trace)
            && (t.broke <==> Broke in trace) && (t.numbered <==> Numbered(trace, t.calls))
    decreases |trace|
  {
    if trace != [] {
      var rest, s := trace[..|trace| - 1], trace[|trace| - 1];
      assert trace == rest + [s];
      ToldIs(p, rest);
      NumberedOnce(rest);
    }
  }

  /** How many calls a trace holds. */
  function CallsIn(trace: seq<Source>): nat {
    if trace == [] then 0
    else CallsIn(trace[..|trace| - 1]) + if trace[|trace| - 1].Inside? then 1 else 0
  }

  lemma {:induction false} NumberedOnce(trace: seq<Source>)
    ensures forall n: nat :: Numbered(trace, n) ==> n == CallsIn(trace)
    decreases |trace|
  {
    if trace != [] {
      NumberedOnce(trace[..|trace| - 1]);
    }
  }

  lemma TellsMeans(p: Program, trace: seq<Source>, g: Gate, outs: seq<Action>, calls: nat, hooked: bool, err: bool)
    requires Tells(p, trace, g, outs, calls, hooked, err)
    ensures g == GateOf(p, trace) && outs == OutsideOf(trace) && Numbered(trace, calls) && HookRuns(trace) <= 1
    ensures Broke in trace ==> err
  {
    ToldIs(p, trace);
  }

  // ----- What the trace grants -----

  /** A request seen from afar: a command with its callback, or something that closes. */
  datatype Move = Ask(cb: Callback, cmd: seq<Byte>) | Close

  function MoveOf(a: Action): Move {
    match a
    case IssueCommand(cb, cmd) => Ask(cb, cmd)
    case RequestDisconnect => Close
    case RequestFree => Close
  }

  function MovesOf(script: seq<Action>): seq<Move> {
    seq(|script|, i requires 0 <= i < |script| => MoveOf(script[i]))
  }

  /** Every request of a trace, one after the other. */
  function Flatten(p: Program, trace: seq<Source>): seq<Move> {
    if trace == [] then []
    else
      var rest := Flatten(p, trace[..|trace| - 1]);
      match trace[|trace| - 1]
      case Outside(a) => rest + [MoveOf(a)]
      case Inside(k) => rest + MovesOf(p.script(k))
      case Hook => rest + MovesOf(p.hook)
      case Broke => rest + [Close]
  }

  lemma FlattenGrows(p: Program, trace: seq<Source>, s: Source)
    ensures Flatten(p, trace + [s]) == Flatten(p, trace) +
            match s
            case Outside(a) => [MoveOf(a)]
            case Inside(k) => MovesOf(p.script(k))
            case Hook => MovesOf(p.hook)
            case Broke => [Close]
  {
    assert (trace + [s])[..|trace|] == trace;
  }

  /** Every call of the API in a script is a move, in order: a command asks, the
      other two close. */
  lemma MovesAre(script: seq<Action>, i: nat)
    requires i < |script|
    ensures |MovesOf(script)| == |script|
    ensures script[i].IssueCommand? ==> MovesOf(script)[i] == Ask(script[i].cb, script[i].cmd)
    ensures script[i].RequestDisconnect? || script[i].RequestFree? ==> MovesOf(script)[i] == Close
  {
  }

  /** Up to the first closing move everything is granted, and nothing behind it. */
  lemma {:induction false} GrantedAre(ms: seq<Move>, n: nat, i: nat)
    requires n <= |ms| && (n < |ms| ==> ms[n] == Close)
    requires forall j :: 0 <= j < n ==> ms[j].Ask?
    ensures |Granted(ms).accepted| == |Granted(ms).cmds| == n
    ensures i < n ==> Granted(ms).accepted[i] == ms[i].cb && Granted(ms).cmds[i] == ms[i].cmd
    decreases n
  {
    if n > 0 {
      assert forall j :: 0 <= j < n - 1 ==> ms[1..][j] == ms[j + 1];
      GrantedAre(ms[1..], n - 1, if i > 0 then i - 1 else 0);
    }
  }

  /** The commands asked for before anything closed the context. */
  function Granted(moves: seq<Move>): Orders {
    if moves == [] || moves[0].Close? then Orders([], [])
    else
      var rest := Granted(moves[1..]);
      Orders([moves[0].cb] + rest.accepted, [moves[0].cmd] + rest.cmds)
  }

  lemma {:induction false} GrantedGrows(ms: seq<Move>, m: Move)
    ensures Granted(ms + [m]) ==
            if Close in ms || m.Close? then Granted(ms) else Accept(Granted(ms), m.cb, m.cmd)
  {
    if ms != [] {
      assert (ms + [m])[0] == ms[0] && (ms + [m])[1..] == ms[1..] + [m];
      assert Close in ms <==> ms[0] == Close || Close in ms[1..];
      GrantedGrows(ms[1..], m);
    }
  }

  /** The gate holds what the moves grant, and is shut if one of them closes. */
  ghost predicate Agrees(g: Gate, ms: seq<Move>) {
    g.orders == Granted(ms) && (Shut(g) <==> Close in ms)
  }

  lemma ActedAgrees(g: Gate, ms: seq<Move>, a: Action)
    requires Agrees(g, ms)
    ensures Agrees(Acted(g, a), ms + [MoveOf(a)]) && Agrees(ActedOutside(g, a), ms + [MoveOf(a)])
  {
    GrantedGrows(ms, MoveOf(a));
    InLast(ms, MoveOf(a), Close);
  }

  lemma InLast(ms: seq<Move>, m: Move, x: Move)
    ensures x in ms + [m] <==> x in ms || x == m
  {
    assert (ms + [m])[|ms|] == m;
  }

  lemma {:induction false} ScriptAgrees(g: Gate, ms: seq<Move>, script: seq<Action>)
    requires Agrees(g, ms)
    ensures Agrees(ActedAll(g, script), ms + MovesOf(script))
    decreases |script|
  {
    if script == [] {
      assert ms + MovesOf(script) == ms;
    } else {
      ActedAgrees(g, ms, script[0]);
      ScriptAgrees(Acted(g, script[0]), ms + [MoveOf(script[0])], script[1..]);
      assert ms + [MoveOf(script[0])] + MovesOf(script[1..]) == ms + MovesOf(script);
    }
  }

  /** A context that follows its trace has accepted exactly the commands asked for
      before anything closed it, each once and in order. */
  lemma {:induction false} OrdersAreGranted(p: Program, trace: seq<Source>)
    ensures GateOf(p, trace).orders == Granted(Flatten(p, trace))
    ensures Shut(GateOf(p, trace)) <==> Close in Flatten(p, trace)
    decreases |trace|
  {
    if trace != [] {
      var rest, s := trace[..|trace| - 1], trace[|trace| - 1];
      OrdersAreGranted(p, rest);
      var g, ms := GateOf(p, rest), Flatten(p, rest);
      match s {
        case Outside(a) => ActedAgrees(g, ms, a);
        case Inside(k) => ScriptAgrees(g, ms, p.script(k));
        case Hook => ScriptAgrees(g, ms, p.hook);
        case Broke =>
          GrantedGrows(ms, Close);
          InLast(ms, Close, Close);
      }
    }
  }

  // ----- Who asked -----

  /** The call made by `s`, or one of the calls of the script it runs, is `a`. */
  predicate Wants(p: Program, s: Source, a: Action) {
    s == Outside(a) || (s.Inside? && a in p.script(s.call))
  }

  ghost predicate Wanted(p: Program, trace: seq<Source>, a: Action) {
    exists s :: s in trace && Wants(p, s, a)
  }

  /** A callback that has run asked to free the context. */
  ghost predicate CutShort(p: Program, trace: seq<Source>) {
    exists s :: s in trace && s.Inside? && RequestFree in p.script(s.call)
  }

  /** The flags of a context are up exactly for a request made or a broken connection. */
  lemma {:induction false} FlagsAreWanted(p: Program, trace: seq<Source>)
    requires OnlyCommands(p.hook)
    ensures var g := GateOf(p, trace);
            && (g.freeing <==> Wanted(p, trace, RequestFree))
            && (g.disconnecting <==> Wanted(p, trace, RequestDisconnect) || Broke in trace)
            && (g.wishes.cut <==> CutShort(p, trace))
    decreases |trace|
  {
    if trace != [] {
      var rest, s := trace[..|trace| - 1], trace[|trace| - 1];
      assert trace == rest + [s];
      FlagsAreWanted(p, rest);
      if s.Inside? {
        ScriptFlags(GateOf(p, rest), p.script(s.call));
      } else if s.Hook? {
        ScriptFlags(GateOf(p, rest), p.hook);
      }
      assert forall x :: x in trace <==> x in rest || x == s;
      assert Wanted(p, trace, RequestFree) <==> Wanted(p, rest, RequestFree) || Wants(p, s, RequestFree);
      assert Wanted(p, trace, RequestDisconnect) <==>
             Wanted(p, rest, RequestDisconnect) || Wants(p, s, RequestDisconnect);
      assert CutShort(p, trace) <==> CutShort(p, rest) || (s.Inside? && RequestFree in p.script(s.call));
    }
  }
}
