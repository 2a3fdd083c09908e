/** Bookkeeping of the pipelined block client as values: the buffer pool, the
    window of requests in flight, and 32-bit block ids. */
module XihuWindow {
  import opened Bytes

  const MSG_BUFFER_NUM: nat := 50
  const PIPLINE_PKT_DEPTH: nat := 30
  const UINT32: nat := 0x1_0000_0000

  function Min(a: nat, b: nat): nat {
    if a < b then a else b
  }

  /** Conversion to uint32_t: the remainder modulo 2^32. */
  function Trunc(n: nat): (r: nat)
    ensures r < UINT32 && r <= n
  {
    if n < UINT32 then n else Trunc(n - UINT32)
  }

  function Quotient(n: nat): nat {
    if n < UINT32 then 0 else Quotient(n - UINT32) + 1
  }

  lemma {:induction false} TruncIsRemainder(n: nat)
    ensures n == Quotient(n) * 0x1_0000_0000 + Trunc(n) && Trunc(n) < 0x1_0000_0000
  {
    if n >= UINT32 {
      TruncIsRemainder(n - UINT32);
    }
  }

  lemma {:induction false} TruncDiffers(a: nat, b: nat)
    requires a < b < a + UINT32
    ensures Trunc(a) != Trunc(b)
  {
    if a >= UINT32 {
      TruncDiffers(a - UINT32, b - UINT32);
    }
  }

  /** The id under which block `s` of a mission travels. */
  function Id(bid: nat, s: nat): nat {
    Trunc(bid + s)
  }

  /** Below 2^32 it is the block's own number. */
  lemma IdIs(bid: nat, s: nat)
    ensures exists q: nat :: bid + s == q * 0x1_0000_0000 + Id(bid, s)
    ensures bid + s < 0x1_0000_0000 ==> Id(bid, s) == bid + s
  {
    TruncIsRemainder(bid + s);
  }

  /** The blocks of a mission have ids of their own, for every start, exactly when
      there are at most 2^32 of them. */
  lemma IdsDifferIff(bid: nat, tot: nat)
    ensures (forall s: nat, t: nat {:trigger Id(bid, s), Id(bid, t)} :: s < t < tot ==> Id(bid, s) != Id(bid, t))
            <==> tot <= UINT32
  {
    if tot > UINT32 {
      assert Id(bid, 0) == Id(bid, UINT32);
    } else {
      forall s: nat, t: nat | s < t < tot
        ensures Id(bid, s) != Id(bid, t)
      {
        TruncDiffers(bid + s, bid + t);
      }
    }
  }

  lemma IdsDiffer(bid: nat, tot: nat, s: nat, t: nat)
    requires s < tot <= UINT32 && t < tot && s != t
    ensures Id(bid, s) != Id(bid, t)
  {
    IdsDifferIff(bid, tot);
  }

  /** cont_func truncates the request counter before it compares it with the
      length of the mission. */
  predicate NothingLeft(nxt: nat, tot: nat) {
    Trunc(nxt) >= tot
  }

  /** The block the continuation requests at counter value `nxt`, if any. */
  function NextBlock(nxt: nat, tot: nat): Option<nat> {
    if NothingLeft(nxt, tot) then None else Some(Trunc(nxt))
  }

  /** The comparison is right, for all counter values a mission of `tot` blocks
      with window `pip` goes through, exactly when these fit 32 bits. */
  lemma CounterIsExactIff(tot: nat, pip: nat)
    requires 0 < pip <= tot
    ensures (forall n :: pip <= n < tot + pip ==> (NothingLeft(n, tot) <==> n >= tot)) <==> tot + pip <= UINT32
  {
    if tot > UINT32 {
      assert !NothingLeft(tot, tot);
    } else if tot + pip > UINT32 {
      assert !NothingLeft(UINT32, tot);
    }
  }

  // ----- The buffer pool -----

  /** Free buffers (`avail`) and buffers in flight (the keys of `owner`) partition the pool. */
  ghost predicate Pool(avail: seq<int>, owner: map<int, nat>) {
    && (forall i :: 0 <= i < |avail| ==> 0 <= avail[i] < MSG_BUFFER_NUM && avail[i] !in owner)
    && (forall i, j :: 0 <= i < j < |avail| ==> avail[i] != avail[j])
    && (forall k :: k in owner ==> 0 <= k < MSG_BUFFER_NUM)
    && (forall k {:trigger Accounted(avail, owner, k)} :: 0 <= k < MSG_BUFFER_NUM ==> Accounted(avail, owner, k))
    && |avail| + |owner| == MSG_BUFFER_NUM
  }

  ghost predicate Accounted(avail: seq<int>, owner: map<int, nat>, k: int) {
    k in avail || k in owner
  }

  lemma AllFree(avail: seq<int>)
    requires |avail| == MSG_BUFFER_NUM && forall i :: 0 <= i < MSG_BUFFER_NUM ==> avail[i] == i
    ensures Pool(avail, map[])
  {
    forall k | 0 <= k < MSG_BUFFER_NUM
      ensures Accounted(avail, map[], k)
    {
      assert avail[k] == k;
    }
  }

  lemma TakeBuffer(avail: seq<int>, owner: map<int, nat>, s: nat)
    requires Pool(avail, owner) && avail != []
    ensures avail[0] !in owner && 0 <= avail[0] < MSG_BUFFER_NUM
    ensures Pool(avail[1..], owner[avail[0] := s])
  {
    var avail', owner' := avail[1..], owner[avail[0] := s];
    forall k | 0 <= k < MSG_BUFFER_NUM
      ensures Accounted(avail', owner', k)
    {
      assert Accounted(avail, owner, k);
      if k in avail && k != avail[0] {
        var i :| 0 <= i < |avail| && avail[i] == k;
        assert avail'[i - 1] == k;
      }
    }
  }

  lemma GiveBuffer(avail: seq<int>, owner: map<int, nat>, k: int)
    requires Pool(avail, owner) && k in owner
    ensures Pool(avail + [k], owner - {k})
  {
    var avail', owner' := avail + [k], owner - {k};
    assert |owner'| == |owner| - 1 by { assert owner == owner'[k := owner[k]]; }
    forall b | 0 <= b < MSG_BUFFER_NUM
      ensures Accounted(avail', owner', b)
    {
      assert Accounted(avail, owner, b);
      if b == k {
        assert avail'[|avail|] == k;
      } else if b in avail {
        var i :| 0 <= i < |avail| && avail[i] == b;
        assert avail'[i] == b;
      }
    }
  }

  // ----- The window -----

  ghost predicate InFlight(owner: map<int, nat>, s: nat) {
    exists k :: k in owner && owner[k] == s
  }

  /** The blocks requested so far are those below `issued`; each is either done or
      carried by exactly one buffer in flight. */
  ghost predicate Window(owner: map<int, nat>, done: set<nat>, issued: nat) {
    && (forall s :: s in done ==> s < issued)
    && (forall k {:trigger owner[k]} :: k in owner ==> owner[k] < issued && owner[k] !in done)
    && (forall k, k' {:trigger owner[k], owner[k']} :: k in owner && k' in owner && k != k' ==> owner[k] != owner[k'])
    && (forall s {:trigger InFlight(owner, s)} :: 0 <= s < issued && s !in done ==> InFlight(owner, s))
    && |owner| + |done| == issued
  }

  lemma IssueBlock(owner: map<int, nat>, done: set<nat>, issued: nat, k: int)
    requires Window(owner, done, issued) && k !in owner
    ensures Window(owner[k := issued], done, issued + 1)
  {
    var owner' := owner[k := issued];
    forall s | 0 <= s < issued + 1 && s !in done
      ensures InFlight(owner', s)
    {
      if s < issued {
        assert InFlight(owner, s);
        var q :| q in owner && owner[q] == s;
        assert owner'[q] == s;
      } else {
        assert owner'[k] == s;
      }
    }
  }

  lemma FinishBlock(owner: map<int, nat>, done: set<nat>, issued: nat, k: int)
    requires Window(owner, done, issued) && k in owner
    ensures Window(owner - {k}, done + {owner[k]}, issued)
  {
    var owner', done' := owner - {k}, done + {owner[k]};
    assert |owner'| == |owner| - 1 by { assert owner == owner'[k := owner[k]]; }
    forall s | 0 <= s < issued && s !in done'
      ensures InFlight(owner', s)
    {
      assert InFlight(owner, s);
      var q :| q in owner && owner[q] == s;
      assert q in owner' && owner'[q] == s;
    }
  }

  /** When every request has come back, every block is done. */
  lemma AllDone(owner: map<int, nat>, done: set<nat>, issued: nat)
    requires Window(owner, done, issued) && |done| == issued
    ensures owner == map[] && forall s :: 0 <= s < issued ==> s in done
  {
    assert |owner| == 0;
    forall s: nat | s < issued
      ensures s in done
    {
      assert s !in done ==> InFlight(owner, s);
    }
  }
}
