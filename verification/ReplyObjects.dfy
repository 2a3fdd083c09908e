/** Reply objects (the create*Object builders of hiredis.c) and the task stack of
    read.c, as values. An object is addressed by its place in a growing store; a
    child is attached by writing its address into its parent's element slot,
    while the parent is still under construction. */
module ReplyObjects {
  import opened Bytes
  import opened Resp
  import opened Machine

  const NULL: int := -1

  datatype Obj =
    | StrObj(kind: Kind, str: seq<Byte>)
    | IntObj(integer: int)
    | NilObj
    | ArrObj(element: seq<int>)

  /** redisReadTask; `parent` is the stack slot of the parent task or NULL. */
  datatype Task = Task(kind: Option<Kind>, elements: int, idx: int, obj: int, parent: int)

  const STACK_SIZE: nat := 9

  /** The objects from address `id` up to `hi` are exactly the tree `t`, root first. */
  ghost predicate Built(objs: seq<Obj>, id: int, hi: int, t: Reply)
    decreases t
  {
    && 0 <= id < hi <= |objs|
    && match t
       case Str(s) => objs[id] == StrObj(KStr, s) && hi == id + 1
       case Status(s) => objs[id] == StrObj(KStatus, s) && hi == id + 1
       case Error(s) => objs[id] == StrObj(KError, s) && hi == id + 1
       case Integer(v) => objs[id] == IntObj(v) && hi == id + 1
       case Nil => objs[id] == NilObj && hi == id + 1
       case Array(rs) => objs[id].ArrObj? && BuiltMany(objs, objs[id].element, id + 1, hi, rs)
  }

  /** The objects from `lo` up to `hi` are the trees `rs`, side by side, with roots `ids`. */
  ghost predicate BuiltMany(objs: seq<Obj>, ids: seq<int>, lo: int, hi: int, rs: seq<Reply>)
    decreases rs
  {
    && 0 <= lo <= hi <= |objs|
    && |ids| == |rs|
    && if rs == [] then lo == hi
       else
         var n := |rs| - 1;
         BuiltMany(objs, ids[..n], lo, ids[n], rs[..n]) && Built(objs, ids[n], hi, rs[n])
  }

  /** The tree found at an address. */
  ghost predicate Denotes(objs: seq<Obj>, id: int, t: Reply) {
    exists hi :: Built(objs, id, hi, t)
  }

  /** A finished tree depends on its own objects only. */
  lemma {:induction false} BuiltFrame(objs: seq<Obj>, objs': seq<Obj>, id: int, hi: int, t: Reply)
    requires Built(objs, id, hi, t)
    requires hi <= |objs'| && forall i :: id <= i < hi ==> objs[i] == objs'[i]
    ensures Built(objs', id, hi, t)
    decreases t
  {
    if t.Array? {
      BuiltManyFrame(objs, objs', objs[id].element, id + 1, hi, t.element);
    }
  }

  lemma {:induction false} BuiltManyFrame(objs: seq<Obj>, objs': seq<Obj>, ids: seq<int>, lo: int, hi: int,
                                          rs: seq<Reply>)
    requires BuiltMany(objs, ids, lo, hi, rs)
    requires hi <= |objs'| && forall i :: lo <= i < hi ==> objs[i] == objs'[i]
    ensures BuiltMany(objs', ids, lo, hi, rs)
    decreases rs
  {
    if rs != [] {
      var n := |rs| - 1;
      BuiltManyFrame(objs, objs', ids[..n], lo, ids[n], rs[..n]);
      BuiltFrame(objs, objs', ids[n], hi, rs[n]);
    }
  }

  /** The address determines the tree: no two different replies can be read off it. */
  lemma {:induction false} BuiltIsUnique(objs: seq<Obj>, id: int, hi: int, t: Reply, hi': int, t': Reply)
    requires Built(objs, id, hi, t) && Built(objs, id, hi', t')
    ensures t == t' && hi == hi'
    decreases t
  {
    if t.Array? {
      BuiltManyIsUnique(objs, objs[id].element, id + 1, hi, t.element, hi', t'.element);
    }
  }

  lemma {:induction false} BuiltManyIsUnique(objs: seq<Obj>, ids: seq<int>, lo: int, hi: int, rs: seq<Reply>,
                                             hi': int, rs': seq<Reply>)
    requires BuiltMany(objs, ids, lo, hi, rs) && BuiltMany(objs, ids, lo, hi', rs')
    ensures rs == rs' && hi == hi'
    decreases rs
  {
    if rs != [] {
      var n := |rs| - 1;
      BuiltManyIsUnique(objs, ids[..n], lo, ids[n], rs[..n], ids[n], rs'[..n]);
      BuiltIsUnique(objs, ids[n], hi, rs[n], hi', rs'[n]);
      assert rs == rs[..n] + [rs[n]] && rs' == rs'[..n] + [rs'[n]];
    }
  }

  // ----- The task stack against the frames of the machine -----

  /** The object in the slot being filled at level `k`: the next array on the
      stack, or the current item `cur` (NULL while it is being read). */
  ghost function NextObj(tasks: seq<Task>, ridx: nat, cur: int, k: nat): int
    requires k < ridx < |tasks|
  {
    if k + 1 < ridx then tasks[k + 1].obj else cur
  }

  /** Level `k` of the stack holds an array under construction: every finished
      child sits in its own slot, the slot being filled holds the next object,
      the later slots are still NULL, and the next task points back here. */
  ghost predicate Level(objs: seq<Obj>, tasks: seq<Task>, ridx: nat, cur: int, k: nat, f: Frame)
    requires k < ridx < |tasks|
  {
    var t, next := tasks[k], NextObj(tasks, ridx, cur, k);
    && t.kind == Some(KArray)
    && t.elements == f.n
    && tasks[k + 1].parent == k
    && tasks[k + 1].idx == |f.kids| < f.n
    && 0 <= t.obj < |objs|
    && objs[t.obj].ArrObj?
    && var el := objs[t.obj].element;
       && |el| == f.n
       && BuiltMany(objs, el[..|f.kids|], t.obj + 1, if next == NULL then |objs| else next, f.kids)
       && el[|f.kids|] == next
       && forall j :: |f.kids| < j < f.n ==> el[j] == NULL
  }

  ghost predicate Spine(objs: seq<Obj>, tasks: seq<Task>, ridx: nat, cur: int, stack: seq<Frame>) {
    && |tasks| == STACK_SIZE
    && ridx == |stack| <= MAX_DEPTH
    && tasks[0].parent == NULL
    && forall k :: 0 <= k < ridx ==> Level(objs, tasks, ridx, cur, k, stack[k])
  }

  lemma SpineIsGood(objs: seq<Obj>, tasks: seq<Task>, ridx: nat, cur: int, stack: seq<Frame>)
    requires Spine(objs, tasks, ridx, cur, stack)
    ensures GoodStack(stack)
  {
    forall i | 0 <= i < |stack|
      ensures |stack[i].kids| < stack[i].n
    {
      assert Level(objs, tasks, ridx, cur, i, stack[i]);
    }
  }

  /** Arrays on the stack were created from the outside in. */
  lemma {:induction false} SpineIsOrdered(objs: seq<Obj>, tasks: seq<Task>, ridx: nat, cur: int, stack: seq<Frame>,
                                          j: nat, k: nat)
    requires Spine(objs, tasks, ridx, cur, stack) && j < k < ridx
    ensures tasks[j].obj < tasks[k].obj
    decreases k - j
  {
    assert Level(objs, tasks, ridx, cur, j, stack[j]);
    assert Level(objs, tasks, ridx, cur, k, stack[k]);
    if j + 1 < k {
      SpineIsOrdered(objs, tasks, ridx, cur, stack, j + 1, k);
      assert Level(objs, tasks, ridx, cur, j + 1, stack[j + 1]);
    }
  }

  /** The store after creating object `o` for task `t`: the new object last, and
      its address in the slot of the parent that the task names. */
  function Attach(objs: seq<Obj>, tasks: seq<Task>, t: Task, o: Obj): (objs': seq<Obj>)
    requires t.parent != NULL ==>
               && 0 <= t.parent < |tasks|
               && 0 <= tasks[t.parent].obj < |objs|
               && objs[tasks[t.parent].obj].ArrObj?
               && 0 <= t.idx < |objs[tasks[t.parent].obj].element|
    ensures |objs'| == |objs| + 1 && objs'[|objs|] == o
  {
    if t.parent == NULL then objs + [o]
    else
      var p := tasks[t.parent].obj;
      objs[p := ArrObj(objs[p].element[t.idx := |objs|])] + [o]
  }

  /** Every builder's assertion holds: the parent is an array with that slot. */
  lemma ParentIsArray(objs: seq<Obj>, tasks: seq<Task>, ridx: nat, stack: seq<Frame>)
    requires Spine(objs, tasks, ridx, NULL, stack)
    ensures var t := tasks[ridx];
            if ridx == 0 then t.parent == NULL
            else
              && t.parent == ridx - 1
              && 0 <= tasks[t.parent].obj < |objs|
              && objs[tasks[t.parent].obj].ArrObj?
              && 0 <= t.idx < |objs[tasks[t.parent].obj].element|
  {
    if ridx > 0 {
      assert Level(objs, tasks, ridx, NULL, ridx - 1, stack[ridx - 1]);
    }
  }

  /** Attaching an object fills the open slot and disturbs nothing else. */
  lemma AttachKeepsSpine(objs: seq<Obj>, tasks: seq<Task>, ridx: nat, stack: seq<Frame>, o: Obj)
    requires Spine(objs, tasks, ridx, NULL, stack)
    requires Attach.requires(objs, tasks, tasks[ridx], o)
    ensures Spine(Attach(objs, tasks, tasks[ridx], o), tasks, ridx, |objs|, stack)
    ensures forall i :: 0 <= i < |objs| && (ridx == 0 || i != tasks[ridx - 1].obj) ==>
                Attach(objs, tasks, tasks[ridx], o)[i] == objs[i]
  {
    var objs' := Attach(objs, tasks, tasks[ridx], o);
    ParentIsArray(objs, tasks, ridx, stack);
    forall k | 0 <= k < ridx
      ensures Level(objs', tasks, ridx, |objs|, k, stack[k])
    {
      AttachKeepsLevel(objs, tasks, ridx, stack, o, k);
    }
  }

  lemma AttachKeepsLevel(objs: seq<Obj>, tasks: seq<Task>, ridx: nat, stack: seq<Frame>, o: Obj, k: nat)
    requires Spine(objs, tasks, ridx, NULL, stack) && k < ridx
    requires Attach.requires(objs, tasks, tasks[ridx], o)
    ensures Level(Attach(objs, tasks, tasks[ridx], o), tasks, ridx, |objs|, k, stack[k])
  {
    var objs' := Attach(objs, tasks, tasks[ridx], o);
    var f, id := stack[k], tasks[k].obj;
    ParentIsArray(objs, tasks, ridx, stack);
    assert Level(objs, tasks, ridx, NULL, k, f);
    var top := tasks[ridx - 1].obj;
    var el := objs[id].element;
    var hi := if k + 1 < ridx then tasks[k + 1].obj else |objs|;
    if k + 1 < ridx {
      SpineIsOrdered(objs, tasks, ridx, NULL, stack, k, ridx - 1);
      assert Level(objs, tasks, ridx, NULL, k + 1, stack[k + 1]);
      if k + 1 < ridx - 1 {
        SpineIsOrdered(objs, tasks, ridx, NULL, stack, k + 1, ridx - 1);
      }
      assert objs'[id] == objs[id];
    } else {
      assert objs'[id].element == el[|f.kids| := |objs|];
      assert objs'[id].element[..|f.kids|] == el[..|f.kids|];
    }
    BuiltManyFrame(objs, objs', el[..|f.kids|], id + 1, hi, f.kids);
  }

  /** Opening an array: its task gets the object, and a task for its first
      element is pushed above it. */
  function Push(tasks: seq<Task>, ridx: nat, n: nat, id: int): seq<Task>
    requires ridx + 1 < |tasks|
  {
    tasks[ridx := tasks[ridx].(elements := n, obj := id)][ridx + 1 := Task(None, -1, 0, NULL, ridx)]
  }

  lemma PushKeepsSpine(objs: seq<Obj>, tasks: seq<Task>, ridx: nat, stack: seq<Frame>, n: nat)
    requires ridx < MAX_DEPTH && n > 0 && |objs| > 0
    requires Spine(objs, tasks, ridx, |objs| - 1, stack)
    requires tasks[ridx].kind == Some(KArray)
    requires objs[|objs| - 1] == ArrObj(seq(n, _ => NULL))
    ensures Spine(objs, Push(tasks, ridx, n, |objs| - 1), ridx + 1, NULL, stack + [Frame(n, [])])
  {
    var id := |objs| - 1;
    var tasks', stack' := Push(tasks, ridx, n, id), stack + [Frame(n, [])];
    forall k | 0 <= k < ridx + 1
      ensures Level(objs, tasks', ridx + 1, NULL, k, stack'[k])
    {
      if k < ridx {
        assert Level(objs, tasks, ridx, id, k, stack[k]);
        assert NextObj(tasks', ridx + 1, NULL, k) == NextObj(tasks, ridx, id, k);
      } else {
        assert objs[id].element[..0] == [];
      }
    }
  }

  /** Moving on to the next element of the same array. */
  function Advance(tasks: seq<Task>, ridx: nat): seq<Task>
    requires ridx < |tasks|
  {
    tasks[ridx := tasks[ridx].(kind := None, elements := -1, idx := tasks[ridx].idx + 1)]
  }

  lemma TopLevelExtends(objs: seq<Obj>, tasks: seq<Task>, ridx: nat, id: int, stack: seq<Frame>, v: Reply)
    requires 0 < ridx && id != NULL && Spine(objs, tasks, ridx, id, stack)
    requires Built(objs, id, |objs|, v)
    ensures var f, o := Top(stack), tasks[ridx - 1].obj;
            && 0 <= o < |objs| && objs[o].ArrObj? && |objs[o].element| == f.n > |f.kids|
            && tasks[ridx].idx == |f.kids| && tasks[ridx - 1].elements == f.n && tasks[ridx - 1].kind == Some(KArray)
            && BuiltMany(objs, objs[o].element[..|f.kids| + 1], o + 1, |objs|, f.kids + [v])
  {
    var f, o := Top(stack), tasks[ridx - 1].obj;
    assert Level(objs, tasks, ridx, id, ridx - 1, f);
    var ids, rs, n := objs[o].element[..|f.kids| + 1], f.kids + [v], |f.kids|;
    assert ids[..n] == objs[o].element[..n] && ids[n] == id;
    assert rs[..n] == f.kids && rs[n] == v;
  }

  lemma AdvanceKeepsSpine(objs: seq<Obj>, tasks: seq<Task>, ridx: nat, id: int, stack: seq<Frame>, v: Reply)
    requires 0 < ridx && id != NULL && Spine(objs, tasks, ridx, id, stack)
    requires Built(objs, id, |objs|, v)
    requires |Top(stack).kids| + 1 < Top(stack).n
    ensures Spine(objs, Advance(tasks, ridx), ridx, NULL, Pop(stack) + [Frame(Top(stack).n, Top(stack).kids + [v])])
  {
    var tasks', f := Advance(tasks, ridx), Top(stack);
    var stack' := Pop(stack) + [Frame(f.n, f.kids + [v])];
    TopLevelExtends(objs, tasks, ridx, id, stack, v);
    forall k | 0 <= k < ridx
      ensures Level(objs, tasks', ridx, NULL, k, stack'[k])
    {
      assert Level(objs, tasks, ridx, id, k, stack[k]);
      if k < ridx - 1 {
        assert NextObj(tasks', ridx, NULL, k) == NextObj(tasks, ridx, id, k);
      }
    }
  }

  /** The last element of an array completes the array itself. */
  lemma PopKeepsSpine(objs: seq<Obj>, tasks: seq<Task>, ridx: nat, id: int, stack: seq<Frame>, v: Reply)
    requires 0 < ridx && id != NULL && Spine(objs, tasks, ridx, id, stack)
    requires Built(objs, id, |objs|, v)
    requires |Top(stack).kids| + 1 == Top(stack).n
    ensures var id' := tasks[ridx - 1].obj;
            && id' != NULL
            && Spine(objs, tasks, ridx - 1, id', Pop(stack))
            && Built(objs, id', |objs|, Array(Top(stack).kids + [v]))
  {
    var f, id' := Top(stack), tasks[ridx - 1].obj;
    TopLevelExtends(objs, tasks, ridx, id, stack, v);
    assert objs[id'].element[..|f.kids| + 1] == objs[id'].element;
    forall k | 0 <= k < ridx - 1
      ensures Level(objs, tasks, ridx - 1, id', k, Pop(stack)[k])
    {
      assert Level(objs, tasks, ridx, id, k, stack[k]);
      assert NextObj(tasks, ridx - 1, id', k) == NextObj(tasks, ridx, id, k);
    }
  }
}
