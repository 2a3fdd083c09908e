/** The rehashing loop of dictExpand: every entry is relinked in place into the
    bucket of the new table that its hash selects. */
module DictRehash {
  import opened DictRows
  import opened DictLinks

  /** Place (i', j') comes at or after (i, j) in the order of the loop. */
  predicate Ahead(i': int, j': int, i: int, j: int) {
    i' > i || (i' == i && j' >= j)
  }

  /** The same entries up to their links. */
  ghost predicate SameData(nodes: seq<Entry>, nodes': seq<Entry>) {
    |nodes| == |nodes'| && forall x :: 0 <= x < |nodes| ==> nodes'[x] == nodes[x].(next := nodes'[x].next)
  }

  /** The loop has reached place (i, j) of the old rows: the entries before it are
      in the new table, which maps `done`, and the others are not. */
  ghost predicate Moved(nodes: seq<Entry>, rows: seq<Row>, e: map<Key, int>, i: nat, j: nat,
                        ntable: seq<int>, nrows: seq<Row>, done: map<Key, int>)
  {
    && Indexed(nodes, rows, e)
    && Indexed(nodes, nrows, done)
    && AllLinked(nodes, ntable, nrows)
    && (forall k :: k in done ==> k in e && done[k] == e[k])
    && (forall p, q {:trigger KeyOf(nodes, rows[p][q])} :: 0 <= p < |rows| && 0 <= q < |rows[p]| ==>
          (KeyOf(nodes, rows[p][q]) in done <==> !Ahead(p, q, i, j)))
  }

  lemma NotLinkedYet(nodes: seq<Entry>, nrows: seq<Row>, done: map<Key, int>, x: int)
    requires Indexed(nodes, nrows, done) && InStore(nodes, x) && nodes[x].key !in done
    ensures forall p {:trigger nrows[p]} :: 0 <= p < |nrows| ==> x !in nrows[p]
  {
    forall p | 0 <= p < |nrows|
      ensures x !in nrows[p]
    {
      forall q | 0 <= q < |nrows[p]|
        ensures nrows[p][q] != x
      {
        assert Registered(nodes, done, nrows[p][q]);
      }
    }
  }

  lemma RelinkedIntoNew(nodes: seq<Entry>, ntable: seq<int>, nrows: seq<Row>, done: map<Key, int>, x: int, h: nat)
    requires Indexed(nodes, nrows, done) && AllLinked(nodes, ntable, nrows)
    requires InStore(nodes, x) && nodes[x].key !in done && h < |nrows|
    ensures AllLinked(SetNext(nodes, x, ntable[h]), ntable[h := x], nrows[h := [x] + nrows[h]])
  {
    NotLinkedYet(nodes, nrows, done, x);
    var nodes' := SetNext(nodes, x, ntable[h]);
    var ntable', nrows' := ntable[h := x], nrows[h := [x] + nrows[h]];
    forall p | 0 <= p < |nrows|
      ensures Linked(nodes', ntable'[p], nrows'[p])
    {
      assert Linked(nodes, ntable[p], nrows[p]);
      LinkedFrame(nodes, nodes', ntable[p], nrows[p]);
      if p == h {
        assert ([x] + nrows[h])[1..] == nrows[h];
      }
    }
  }

  /** Moving the entry at place (i, j). */
  lemma MoveOne(nodes: seq<Entry>, rows: seq<Row>, e: map<Key, int>, i: nat, j: nat,
                ntable: seq<int>, nrows: seq<Row>, done: map<Key, int>, h: nat)
    requires Moved(nodes, rows, e, i, j, ntable, nrows, done)
    requires i < |rows| && j < |rows[i]| && h < |nrows| && h == Slot(KeyOf(nodes, rows[i][j]), |nrows|)
    ensures var x := rows[i][j];
            && InStore(nodes, x)
            && Moved(SetNext(nodes, x, ntable[h]), rows, e, i, j + 1,
                     ntable[h := x], nrows[h := [x] + nrows[h]], done[nodes[x].key := x])
            && nodes[x].key !in done
  {
    var x := rows[i][j];
    assert Registered(nodes, e, x);
    var key := nodes[x].key;
    assert key !in done by { assert KeyOf(nodes, x) in done <==> !Ahead(i, j, i, j); }
    var nodes', done' := SetNext(nodes, x, ntable[h]), done[key := x];
    RelinkedIntoNew(nodes, ntable, nrows, done, x, h);
    PrependIndexed(nodes, nrows, h, x, done);
    IndexedFrame(nodes, nodes', nrows[h := [x] + nrows[h]], done');
    IndexedFrame(nodes, nodes', rows, e);
    forall p, q | 0 <= p < |rows| && 0 <= q < |rows[p]|
      ensures KeyOf(nodes', rows[p][q]) in done' <==> !Ahead(p, q, i, j + 1)
    {
      assert Registered(nodes, e, rows[p][q]);
      assert KeyOf(nodes', rows[p][q]) == KeyOf(nodes, rows[p][q]);
      if (p, q) != (i, j) {
        PlacesDiffer(nodes, rows, p, q, i, j);
      }
    }
  }

  lemma RowDone(nodes: seq<Entry>, rows: seq<Row>, e: map<Key, int>, i: nat,
                ntable: seq<int>, nrows: seq<Row>, done: map<Key, int>)
    requires i < |rows| && Moved(nodes, rows, e, i, |rows[i]|, ntable, nrows, done)
    ensures Moved(nodes, rows, e, i + 1, 0, ntable, nrows, done)
  {
    forall p, q | 0 <= p < |rows| && 0 <= q < |rows[p]|
      ensures KeyOf(nodes, rows[p][q]) in done <==> !Ahead(p, q, i + 1, 0)
    {
      assert Ahead(p, q, i + 1, 0) <==> Ahead(p, q, i, |rows[i]|);
    }
  }

  /** When no place is ahead any more, the new table maps everything. */
  lemma AllMoved(nodes: seq<Entry>, rows: seq<Row>, e: map<Key, int>, i: nat,
                 ntable: seq<int>, nrows: seq<Row>, done: map<Key, int>)
    requires Moved(nodes, rows, e, i, 0, ntable, nrows, done)
    requires forall p :: i <= p < |rows| ==> rows[p] == []
    ensures done == e
  {
    forall k | k in e
      ensures k in done
    {
      assert Placed(nodes, rows, k, e[k]);
      var p := Slot(k, |rows|);
      var q :| 0 <= q < |rows[p]| && rows[p][q] == e[k];
      assert KeyOf(nodes, rows[p][q]) == k;
    }
  }

  /** The chains of the old table from row `i` on. */
  ghost predicate RestLinked(nodes: seq<Entry>, table: seq<int>, rows: seq<Row>, i: nat) {
    && |table| == |rows|
    && forall p {:trigger Linked(nodes, table[p], rows[p])} :: i <= p < |rows| ==> Linked(nodes, table[p], rows[p])
  }

  lemma MoveKeepsRest(nodes: seq<Entry>, table: seq<int>, rows: seq<Row>, i: nat, j: nat, next: int)
    requires Keyed(nodes, rows) && i < |rows| && j < |rows[i]| && InStore(nodes, rows[i][j])
    requires RestLinked(nodes, table, rows, i + 1)
    requires Linked(nodes, rows[i][j], rows[i][j..])
    ensures RestLinked(SetNext(nodes, rows[i][j], next), table, rows, i + 1)
    ensures Linked(SetNext(nodes, rows[i][j], next), nodes[rows[i][j]].next, rows[i][j + 1..])
  {
    var x := rows[i][j];
    var nodes' := SetNext(nodes, x, next);
    forall p | i + 1 <= p < |rows|
      ensures Linked(nodes', table[p], rows[p])
    {
      forall q | 0 <= q < |rows[p]|
        ensures rows[p][q] != x
      {
        PlacesDiffer(nodes, rows, p, q, i, j);
      }
      LinkedFrame(nodes, nodes', table[p], rows[p]);
    }
    var tail := rows[i][j + 1..];
    assert rows[i][j..][1..] == tail;
    forall q | 0 <= q < |tail|
      ensures tail[q] != x
    {
      PlacesDiffer(nodes, rows, i, j + 1 + q, i, j);
    }
    LinkedFrame(nodes, nodes', nodes[x].next, tail);
  }

  /** The new table under construction: its links, and for reasoning its rows and map. */
  datatype Target = Target(nodes: seq<Entry>, table: seq<int>, rows: seq<Row>, done: map<Key, int>)

  /** What holds when the loop has reached place (i, j) of the old table. */
  ghost predicate Reached(nodes0: seq<Entry>, table: seq<int>, rows: seq<Row>, e: map<Key, int>,
                          i: nat, j: nat, t: Target)
  {
    && Moved(t.nodes, rows, e, i, j, t.table, t.rows, t.done)
    && SameData(nodes0, t.nodes)
    && RestLinked(t.nodes, table, rows, i + 1)
    && i < |rows| && j <= |rows[i]|
    && |t.rows| > 0 && |t.done| == |Flat(t.rows)|
  }

  /** The target after the entry at (i, j) went in front of bucket `h`. */
  function Relink(t: Target, x: int, h: nat): Target
    requires InStore(t.nodes, x) && h < |t.table| && h < |t.rows|
  {
    Target(SetNext(t.nodes, x, t.table[h]), t.table[h := x], t.rows[h := [x] + t.rows[h]], t.done[t.nodes[x].key := x])
  }

  lemma RelinkReaches(nodes0: seq<Entry>, table: seq<int>, rows: seq<Row>, e: map<Key, int>,
                      i: nat, j: nat, t: Target, h: nat)
    requires Reached(nodes0, table, rows, e, i, j, t) && j < |rows[i]|
    requires h < |t.rows| && h == Slot(KeyOf(t.nodes, rows[i][j]), |t.rows|)
    requires Linked(t.nodes, rows[i][j], rows[i][j..])
    ensures InStore(t.nodes, rows[i][j]) && h < |t.table|
    ensures var t' := Relink(t, rows[i][j], h);
            && Reached(nodes0, table, rows, e, i, j + 1, t')
            && Linked(t'.nodes, t.nodes[rows[i][j]].next, rows[i][j + 1..])
            && |t'.rows| == |t.rows| && |Flat(t'.rows)| == |Flat(t.rows)| + 1
  {
    MoveOne(t.nodes, rows, e, i, j, t.table, t.rows, t.done, h);
    MoveKeepsRest(t.nodes, table, rows, i, j, t.table[h]);
    FlatUpdate(t.rows, h, [rows[i][j]] + t.rows[h]);
  }

  lemma ReachedHead(nodes0: seq<Entry>, table: seq<int>, rows: seq<Row>, e: map<Key, int>,
                    i: nat, j: nat, t: Target, he: int)
    requires Reached(nodes0, table, rows, e, i, j, t)
    requires Linked(t.nodes, he, rows[i][j..])
    ensures he == NULL <==> j == |rows[i]|
    ensures he != NULL ==> he == rows[i][j] && InStore(t.nodes, he)
    ensures |t.table| == |t.rows|
  {
  }

  /** What is still to move of row `i` hangs on `he`. */
  ghost predicate Hangs(nodes: seq<Entry>, row: Row, j: nat, he: int) {
    && j <= |row| && Linked(nodes, he, row[j..])
    && (he == NULL <==> j == |row|)
    && (he != NULL ==> he == row[j] && InStore(nodes, he))
  }

  /** Relinking one entry. */
  method MoveEntry(ghost nodes0: seq<Entry>, ghost table: seq<int>, ghost rows: seq<Row>, ghost e: map<Key, int>,
                   ghost i: nat, ghost j: nat, nodes: seq<Entry>, ntable: seq<int>, ghost t: Target, he: int)
    returns (nodes': seq<Entry>, ntable': seq<int>, ghost t': Target, nextHe: int)
    requires t.nodes == nodes && t.table == ntable
    requires Reached(nodes0, table, rows, e, i, j, t) && Hangs(nodes, rows[i], j, he) && he != NULL
    ensures t'.nodes == nodes' && t'.table == ntable'
    ensures Reached(nodes0, table, rows, e, i, j + 1, t') && Hangs(nodes', rows[i], j + 1, nextHe)
    ensures |t'.rows| == |t.rows| && |Flat(t'.rows)| == |Flat(t.rows)| + 1
  {
    ReachedHead(nodes0, table, rows, e, i, j, t, he);
    nextHe := nodes[he].next;
    var hash := GenHash(nodes[he].key);
    var h := And(hash, |ntable| - 1);
    RelinkReaches(nodes0, table, rows, e, i, j, t, h);
    t' := Relink(t, he, h);
    nodes' := SetNext(nodes, he, ntable[h]);
    ntable' := ntable[h := he];
    ReachedHead(nodes0, table, rows, e, i, j + 1, t', nextHe);
  }

  /** Relinking one chain. */
  method MoveRow(ghost nodes0: seq<Entry>, table: seq<int>, ghost rows: seq<Row>, ghost e: map<Key, int>, i: nat,
                 nodes1: seq<Entry>, ntable1: seq<int>, ghost t1: Target, used1: nat)
    returns (nodes: seq<Entry>, ntable: seq<int>, ghost t: Target, used: nat)
    requires i < |rows| == |table| && t1.nodes == nodes1 && t1.table == ntable1
    requires Reached(nodes0, table, rows, e, i, 0, t1) && Linked(nodes1, table[i], rows[i])
    requires used1 >= |rows[i]|
    ensures t.nodes == nodes && t.table == ntable && used == used1 - |rows[i]|
    ensures Reached(nodes0, table, rows, e, i, |rows[i]|, t)
    ensures |t.rows| == |t1.rows| && |Flat(t.rows)| == |Flat(t1.rows)| + |rows[i]|
  {
    nodes, ntable, t, used := nodes1, ntable1, t1, used1;
    var he := table[i];
    ghost var j := 0;
    assert rows[i][0..] == rows[i];
    ReachedHead(nodes0, table, rows, e, i, j, t, he);
    while he != NULL
      invariant t.nodes == nodes && t.table == ntable && |t.rows| == |t1.rows|
      invariant Hangs(nodes, rows[i], j, he) && used == used1 - j
      invariant Reached(nodes0, table, rows, e, i, j, t)
      invariant |Flat(t.rows)| == |Flat(t1.rows)| + j
      decreases |rows[i]| - j
    {
      nodes, ntable, t, he := MoveEntry(nodes0, table, rows, e, i, j, nodes, ntable, t, he);
      used, j := used - 1, j + 1;
    }
  }

  /** Between two chains of the old table. */
  ghost predicate Between(nodes0: seq<Entry>, table: seq<int>, rows: seq<Row>, e: map<Key, int>, i: nat, t: Target) {
    && Moved(t.nodes, rows, e, i, 0, t.table, t.rows, t.done)
    && SameData(nodes0, t.nodes)
    && RestLinked(t.nodes, table, rows, i)
    && i <= |rows|
    && |t.rows| > 0 && |t.done| == |Flat(t.rows)|
  }

  lemma EnterRow(nodes0: seq<Entry>, table: seq<int>, rows: seq<Row>, e: map<Key, int>, i: nat, t: Target)
    requires Between(nodes0, table, rows, e, i, t) && i < |rows|
    ensures Reached(nodes0, table, rows, e, i, 0, t) && |table| == |rows| && Linked(t.nodes, table[i], rows[i])
  {
  }

  lemma LeaveRow(nodes0: seq<Entry>, table: seq<int>, rows: seq<Row>, e: map<Key, int>, i: nat, t: Target)
    requires i < |rows| && Reached(nodes0, table, rows, e, i, |rows[i]|, t)
    ensures Between(nodes0, table, rows, e, i + 1, t)
  {
    RowDone(t.nodes, rows, e, i, t.table, t.rows, t.done);
  }

  lemma StartBetween(nodes0: seq<Entry>, table: seq<int>, rows: seq<Row>, e: map<Key, int>, realsize: nat)
    requires AllLinked(nodes0, table, rows) && Indexed(nodes0, rows, e) && realsize > 0
    ensures var t := Target(nodes0, seq(realsize, _ => NULL), seq(realsize, _ => []), map[]);
            Between(nodes0, table, rows, e, 0, t) && |Flat(t.rows)| == 0
  {
    FlatOfEmpty<int>(realsize);
  }

  lemma EndBetween(nodes0: seq<Entry>, table: seq<int>, rows: seq<Row>, e: map<Key, int>, i: nat, t: Target)
    requires Between(nodes0, table, rows, e, i, t) && |Flat(rows[i..])| == 0
    ensures t.done == e && SameData(nodes0, t.nodes)
    ensures AllLinked(t.nodes, t.table, t.rows) && Indexed(t.nodes, t.rows, e)
  {
    forall p | i <= p < |rows|
      ensures rows[p] == []
    {
      NothingLeft(rows[i..], p - i);
    }
    AllMoved(t.nodes, rows, e, i, t.table, t.rows, t.done);
  }

  /** Relinking all chains; the loop stops early once no entry is left, and by
      then nothing has been skipped. */
  method Rehash(nodes0: seq<Entry>, table: seq<int>, ghost rows: seq<Row>, ghost e: map<Key, int>,
                used0: nat, realsize: nat)
    returns (nodes: seq<Entry>, ntable: seq<int>, ghost nrows: seq<Row>)
    requires AllLinked(nodes0, table, rows) && Indexed(nodes0, rows, e)
    requires used0 == |Flat(rows)| && realsize > 0
    ensures AllLinked(nodes, ntable, nrows) && Indexed(nodes, nrows, e) && |nrows| == realsize
    ensures |Flat(nrows)| == |Flat(rows)| && SameData(nodes0, nodes)
  {
    nodes, ntable := nodes0, seq(realsize, _ => NULL);
    ghost var t := Target(nodes0, seq(realsize, _ => NULL), seq(realsize, _ => []), map[]);
    StartBetween(nodes0, table, rows, e, realsize);
    var used, i := used0, 0;
    assert rows[0..] == rows;
    while i < |table| && used > 0
      invariant 0 <= i <= |rows| == |table| && t.nodes == nodes && t.table == ntable && |t.rows| == realsize
      invariant Between(nodes0, table, rows, e, i, t)
      invariant used == |Flat(rows[i..])| && |Flat(t.rows)| == used0 - used
      decreases |rows| - i
    {
      FlatSplits(rows, i);
      EnterRow(nodes0, table, rows, e, i, t);
      if table[i] == NULL {
        assert rows[i] == [];
      }
      nodes, ntable, t, used := MoveRow(nodes0, table, rows, e, i, nodes, ntable, t, used);
      LeaveRow(nodes0, table, rows, e, i, t);
      i := i + 1;
    }
    EndBetween(nodes0, table, rows, e, i, t);
    nrows := t.rows;
  }
}
