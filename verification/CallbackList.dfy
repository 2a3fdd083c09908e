/** The pending-callback list of async.c: a singly linked list with head and tail.
    List nodes live in a store, and a node is addressed by its place in it. */
module CallbackLists {
  import opened Bytes

  /** A registered callback; `fn` is false for a NULL function pointer. */
  datatype Callback = Callback(fn: bool, privdata: int)

  datatype Node = Node(cb: Callback, next: int)

  const NULL: int := -1

  function NextOf(chain: seq<int>, i: nat): int {
    if i + 1 < |chain| then chain[i + 1] else NULL
  }

  /** Place `i` of the chain is a node with callback `i`, linked to the next place. */
  ghost predicate Holds(store: seq<Node>, chain: seq<int>, contents: seq<Callback>, i: nat) {
    && i < |chain| && i < |contents| && 0 <= chain[i] < |store|
    && store[chain[i]] == Node(contents[i], NextOf(chain, i))
  }

  ghost predicate Apart(chain: seq<int>, i: nat, j: nat) {
    i < j < |chain| && chain[i] != chain[j]
  }

  /** Head, tail and links of the store spell out `contents`. */
  ghost predicate Spells(store: seq<Node>, head: int, tail: int, chain: seq<int>, contents: seq<Callback>) {
    && |chain| == |contents|
    && head == (if chain == [] then NULL else chain[0])
    && tail == (if chain == [] then NULL else chain[|chain| - 1])
    && (forall i {:trigger Holds(store, chain, contents, i)} :: 0 <= i < |chain| ==> Holds(store, chain, contents, i))
    && (forall i, j {:trigger Apart(chain, i, j)} :: 0 <= i < j < |chain| ==> Apart(chain, i, j))
  }

  lemma HeadHolds(store: seq<Node>, head: int, tail: int, chain: seq<int>, contents: seq<Callback>)
    requires Spells(store, head, tail, chain, contents)
    ensures head == NULL <==> contents == []
    ensures tail == NULL <==> contents == []
    ensures contents != [] ==> 0 <= head < |store| && 0 <= tail < |store|
  {
    if contents != [] {
      assert Holds(store, chain, contents, 0);
      assert Holds(store, chain, contents, |chain| - 1);
    }
  }

  /** The store after a new node went behind the tail. */
  function Pushed(store: seq<Node>, tail: int, cb: Callback): seq<Node>
    requires tail == NULL || 0 <= tail < |store|
  {
    (if tail == NULL then store else store[tail := store[tail].(next := |store|)]) + [Node(cb, NULL)]
  }

  lemma PushSpells(store: seq<Node>, head: int, tail: int, chain: seq<int>, contents: seq<Callback>, cb: Callback)
    requires Spells(store, head, tail, chain, contents) && (tail == NULL || 0 <= tail < |store|)
    ensures Spells(Pushed(store, tail, cb), if head == NULL then |store| else head, |store|,
                   chain + [|store|], contents + [cb])
  {
    var store', chain', contents' := Pushed(store, tail, cb), chain + [|store|], contents + [cb];
    var n := |chain|;
    HeadHolds(store, head, tail, chain, contents);
    forall i | 0 <= i < |chain'|
      ensures Holds(store', chain', contents', i)
    {
      assert i < n ==> Holds(store, chain, contents, i) && chain'[i] == chain[i];
      assert i < n - 1 ==> Apart(chain, i, n - 1);
    }
    forall i, j | 0 <= i < j < |chain'|
      ensures Apart(chain', i, j)
    {
      assert Holds(store, chain, contents, i);
      assert j < n ==> Apart(chain, i, j);
    }
  }

  lemma ShiftSpells(store: seq<Node>, head: int, tail: int, chain: seq<int>, contents: seq<Callback>)
    requires Spells(store, head, tail, chain, contents) && contents != []
    ensures 0 <= head < |store| && store[head].cb == contents[0]
    ensures Spells(store, store[head].next, if head == tail then NULL else tail, chain[1..], contents[1..])
  {
    HeadHolds(store, head, tail, chain, contents);
    assert Holds(store, chain, contents, 0);
    assert |chain| > 1 ==> Apart(chain, 0, |chain| - 1);
    forall i | 0 <= i < |chain| - 1
      ensures Holds(store, chain[1..], contents[1..], i)
    {
      assert Holds(store, chain, contents, i + 1);
    }
    forall i, j | 0 <= i < j < |chain| - 1
      ensures Apart(chain[1..], i, j)
    {
      assert Apart(chain, i + 1, j + 1);
    }
  }

  class CallbackList {
    var head: int
    var tail: int
    var store: seq<Node>
    /** The callbacks in the list, oldest first, and the nodes that hold them. */
    ghost var contents: seq<Callback>
    ghost var chain: seq<int>

    ghost predicate Valid()
      reads this
    {
      && Spells(store, head, tail, chain, contents)
      && (head == NULL <==> contents == [])
    }

    constructor ()
      ensures Valid() && contents == []
    {
      head, tail, store, contents, chain := NULL, NULL, [], [], [];
    }

    /** __redisPushCallback. */
    method Push(source: Callback)
      requires Valid()
      modifies this
      ensures Valid() && contents == old(contents) + [source]
    {
      HeadHolds(store, head, tail, chain, contents);
      PushSpells(store, head, tail, chain, contents, source);
      var cb := |store|;
      store := Pushed(store, tail, source);
      if head == NULL {
        head := cb;
      }
      tail := cb;
      contents, chain := contents + [source], chain + [cb];
    }

    /** __redisShiftCallback. */
    method Shift() returns (target: Option<Callback>)
      requires Valid()
      modifies this
      ensures Valid()
      ensures old(contents) == [] ==> target == None && contents == []
      ensures old(contents) != [] ==> target == Some(old(contents)[0]) && contents == old(contents)[1..]
    {
      var cb := head;
      if cb == NULL { return None; }
      ShiftSpells(store, head, tail, chain, contents);
      head := store[cb].next;
      if cb == tail {
        tail := NULL;
      }
      contents, chain := contents[1..], chain[1..];
      HeadHolds(store, head, tail, chain, contents);
      return Some(store[cb].cb);
    }
  }
}
