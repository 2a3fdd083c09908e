/** Entries of a chained hash table in a store: an entry is addressed by its place
    in the store, `next` is such an address, and unlinking or relinking an entry
    rewrites `next` in place. */
module DictLinks {
  import opened DictRows

  const NULL: int := -1

  /** dictEntry. */
  datatype Entry = Entry(key: Key, val: int, next: int)

  /** The addresses of one bucket's entries, in chain order. */
  type Row = seq<int>

  predicate InStore(nodes: seq<Entry>, x: int) {
    0 <= x < |nodes|
  }

  // ----- Which entries are in which row -----

  /** Every key of row `i` hashes to bucket `i`, and no key occurs twice. */
  ghost predicate RowKeys(nodes: seq<Entry>, c: Row, i: nat, size: nat)
    requires size > 0
  {
    && (forall j :: 0 <= j < |c| ==> InStore(nodes, c[j]) && Slot(nodes[c[j]].key, size) == i)
    && (forall j, k :: 0 <= j < k < |c| ==> nodes[c[j]].key != nodes[c[k]].key)
  }

  ghost predicate Keyed(nodes: seq<Entry>, rows: seq<Row>) {
    forall i {:trigger RowKeys(nodes, rows[i], i, |rows|)} :: 0 <= i < |rows| ==> RowKeys(nodes, rows[i], i, |rows|)
  }

  /** `e` maps every key to its entry: the rows hold exactly these entries. */
  ghost predicate Indexed(nodes: seq<Entry>, rows: seq<Row>, e: map<Key, int>) {
    && Keyed(nodes, rows)
    && (forall i, j {:trigger Registered(nodes, e, rows[i][j])} ::
          0 <= i < |rows| && 0 <= j < |rows[i]| ==> Registered(nodes, e, rows[i][j]))
    && (forall k {:trigger Placed(nodes, rows, k, e[k])} :: k in e ==> Placed(nodes, rows, k, e[k]))
  }

  ghost predicate Registered(nodes: seq<Entry>, e: map<Key, int>, x: int) {
    InStore(nodes, x) && nodes[x].key in e && e[nodes[x].key] == x
  }

  ghost predicate Placed(nodes: seq<Entry>, rows: seq<Row>, k: Key, x: int) {
    |rows| > 0 && InStore(nodes, x) && nodes[x].key == k && x in rows[Slot(k, |rows|)]
  }

  ghost predicate HasKey(nodes: seq<Entry>, c: Row, k: Key) {
    exists j :: 0 <= j < |c| && InStore(nodes, c[j]) && nodes[c[j]].key == k
  }

  /** A mapped key is found in the row of its bucket. */
  lemma KeyHasItsRow(nodes: seq<Entry>, rows: seq<Row>, e: map<Key, int>, k: Key)
    requires Indexed(nodes, rows, e)
    ensures k in e ==> |rows| > 0 && HasKey(nodes, rows[Slot(k, |rows|)], k)
  {
    if k in e {
      assert Placed(nodes, rows, k, e[k]);
    }
  }

  /** The same entries up to their links and values. */
  ghost predicate SameKeys(nodes: seq<Entry>, nodes': seq<Entry>) {
    |nodes| <= |nodes'| && forall x :: 0 <= x < |nodes| ==> nodes'[x].key == nodes[x].key
  }

  lemma IndexedFrame(nodes: seq<Entry>, nodes': seq<Entry>, rows: seq<Row>, e: map<Key, int>)
    requires Indexed(nodes, rows, e) && SameKeys(nodes, nodes')
    ensures Indexed(nodes', rows, e)
  {
    forall i | 0 <= i < |rows|
      ensures RowKeys(nodes', rows[i], i, |rows|)
    {
      assert RowKeys(nodes, rows[i], i, |rows|);
    }
    forall i, j | 0 <= i < |rows| && 0 <= j < |rows[i]|
      ensures Registered(nodes', e, rows[i][j])
    {
      assert Registered(nodes, e, rows[i][j]);
    }
    forall k | k in e
      ensures Placed(nodes', rows, k, e[k])
    {
      assert Placed(nodes, rows, k, e[k]);
    }
  }

  /** Different places of a table hold different entries. */
  lemma PlacesDiffer(nodes: seq<Entry>, rows: seq<Row>, i: nat, j: nat, i': nat, j': nat)
    requires Keyed(nodes, rows)
    requires i < |rows| && j < |rows[i]| && i' < |rows| && j' < |rows[i']|
    requires (i, j) != (i', j')
    ensures rows[i][j] != rows[i'][j']
    ensures InStore(nodes, rows[i][j]) && InStore(nodes, rows[i'][j'])
    ensures nodes[rows[i][j]].key != nodes[rows[i'][j']].key
  {
    assert RowKeys(nodes, rows[i], i, |rows|) && RowKeys(nodes, rows[i'], i', |rows|);
  }

  lemma RowIsDistinct(nodes: seq<Entry>, rows: seq<Row>, i: nat)
    requires Keyed(nodes, rows) && i < |rows|
    ensures Distinct(rows[i])
  {
    assert RowKeys(nodes, rows[i], i, |rows|);
  }

  ghost predicate Distinct(c: Row) {
    forall j, k :: 0 <= j < k < |c| ==> c[j] != c[k]
  }

  lemma PrependRow(nodes: seq<Entry>, rows: seq<Row>, h: nat, x: int, i: nat)
    requires Keyed(nodes, rows) && h < |rows| && i < |rows| && InStore(nodes, x) && h == Slot(nodes[x].key, |rows|)
    requires forall j :: 0 <= j < |rows[h]| ==> InStore(nodes, rows[h][j]) && nodes[rows[h][j]].key != nodes[x].key
    ensures RowKeys(nodes, rows[h := [x] + rows[h]][i], i, |rows|)
  {
    assert RowKeys(nodes, rows[i], i, |rows|);
  }

  /** A new key's entry may go in front of its bucket. */
  lemma PrependIndexed(nodes: seq<Entry>, rows: seq<Row>, h: nat, x: int, e: map<Key, int>)
    requires Indexed(nodes, rows, e) && h < |rows| && InStore(nodes, x)
    requires h == Slot(nodes[x].key, |rows|) && nodes[x].key !in e
    ensures Indexed(nodes, rows[h := [x] + rows[h]], e[nodes[x].key := x])
  {
    var key := nodes[x].key;
    var row := [x] + rows[h];
    var rows', e' := rows[h := row], e[key := x];
    forall j | 0 <= j < |rows[h]|
      ensures InStore(nodes, rows[h][j]) && nodes[rows[h][j]].key != key
    {
      assert Registered(nodes, e, rows[h][j]);
    }
    forall i | 0 <= i < |rows|
      ensures RowKeys(nodes, rows'[i], i, |rows|)
    {
      PrependRow(nodes, rows, h, x, i);
    }
    forall i, j | 0 <= i < |rows'| && 0 <= j < |rows'[i]|
      ensures Registered(nodes, e', rows'[i][j])
    {
      if i == h && j == 0 {
        assert rows'[i][j] == x;
      } else {
        var y := rows[i][if i == h then j - 1 else j];
        assert rows'[i][j] == y && Registered(nodes, e, y);
      }
    }
    forall k | k in e'
      ensures Placed(nodes, rows', k, e'[k])
    {
      if k == key {
        assert row[0] == x;
      } else {
        assert Placed(nodes, rows, k, e[k]);
      }
    }
  }

  lemma RemoveRow(nodes: seq<Entry>, c: Row, j: nat, i: nat, size: nat)
    requires size > 0 && RowKeys(nodes, c, i, size) && j < |c|
    ensures RowKeys(nodes, Without(c, j), i, size)
  {
    var row := Without(c, j);
    assert forall k :: 0 <= k < |row| ==> row[k] == c[if k < j then k else k + 1];
  }

  /** An entry may be taken out of its row. */
  lemma RemoveIndexed(nodes: seq<Entry>, rows: seq<Row>, h: nat, j: nat, e: map<Key, int>)
    requires Indexed(nodes, rows, e) && h < |rows| && j < |rows[h]| && InStore(nodes, rows[h][j])
    ensures Indexed(nodes, rows[h := Without(rows[h], j)], e - {nodes[rows[h][j]].key})
  {
    var key := nodes[rows[h][j]].key;
    var row := Without(rows[h], j);
    var rows', e' := rows[h := row], e - {key};
    forall i | 0 <= i < |rows|
      ensures RowKeys(nodes, rows'[i], i, |rows|)
    {
      assert RowKeys(nodes, rows[i], i, |rows|);
      if i == h {
        RemoveRow(nodes, rows[h], j, h, |rows|);
      }
    }
    forall i, k | 0 <= i < |rows'| && 0 <= k < |rows'[i]|
      ensures Registered(nodes, e', rows'[i][k])
    {
      var k' := if i == h && k >= j then k + 1 else k;
      assert rows'[i][k] == rows[i][k'];
      PlacesDiffer(nodes, rows, i, k', h, j);
      assert Registered(nodes, e, rows[i][k']);
    }
    forall k | k in e'
      ensures Placed(nodes, rows', k, e'[k])
    {
      var i := Slot(k, |rows|);
      assert Placed(nodes, rows, k, e[k]);
      var q :| 0 <= q < |rows[i]| && rows[i][q] == e[k];
      if i == h {
        assert row[if q < j then q else q - 1] == e[k];
      }
    }
  }

  // ----- How the entries of a row are linked -----

  /** The chain that starts at `head` is exactly `c`. */
  ghost predicate Linked(nodes: seq<Entry>, head: int, c: Row)
    decreases |c|
  {
    if c == [] then head == NULL
    else head == c[0] && InStore(nodes, head) && Linked(nodes, nodes[head].next, c[1..])
  }

  /** A chain depends only on the links of its own entries. */
  lemma {:induction false} LinkedFrame(nodes: seq<Entry>, nodes': seq<Entry>, head: int, c: Row)
    requires Linked(nodes, head, c)
    requires forall j :: 0 <= j < |c| && InStore(nodes, c[j]) ==>
               InStore(nodes', c[j]) && nodes'[c[j]].next == nodes[c[j]].next
    ensures Linked(nodes', head, c)
    decreases |c|
  {
    if c != [] {
      assert c[0] == head;
      assert forall j :: 0 <= j < |c[1..]| ==> c[1..][j] == c[j + 1];
      LinkedFrame(nodes, nodes', nodes[head].next, c[1..]);
    }
  }

  function SetNext(nodes: seq<Entry>, x: int, next: int): seq<Entry>
    requires InStore(nodes, x)
  {
    nodes[x := nodes[x].(next := next)]
  }

  ghost function At(c: Row, j: int): int {
    if 0 <= j < |c| then c[j] else NULL
  }

  /** Unlinking entry `j` by redirecting its predecessor, or the bucket head. */
  lemma {:induction false} UnlinkRow(nodes: seq<Entry>, head: int, c: Row, j: nat)
    requires Linked(nodes, head, c) && j < |c| && Distinct(c)
    requires forall k :: 0 <= k < |c| ==> 0 <= c[k] < |nodes|
    ensures j == 0 ==> Linked(nodes, nodes[c[0]].next, Without(c, 0))
    ensures j > 0 ==> Linked(SetNext(nodes, c[j - 1], nodes[c[j]].next), head, Without(c, j))
    decreases j
  {
    if j == 0 {
      assert Without(c, 0) == c[1..];
    } else {
      var t := c[1..];
      var nodes' := SetNext(nodes, c[j - 1], nodes[c[j]].next);
      assert Without(c, j)[1..] == Without(t, j - 1);
      UnlinkRow(nodes, nodes[head].next, t, j - 1);
      if j == 1 {
        LinkedFrame(nodes, nodes', nodes[c[1]].next, Without(t, 0));
      }
    }
  }

  ghost predicate AllLinked(nodes: seq<Entry>, table: seq<int>, rows: seq<Row>) {
    && |table| == |rows|
    && forall i {:trigger Linked(nodes, table[i], rows[i])} :: 0 <= i < |rows| ==> Linked(nodes, table[i], rows[i])
  }

  /** Changing the links of entries outside row `i` leaves row `i` linked. */
  lemma OtherRowStays(nodes: seq<Entry>, rows: seq<Row>, head: int, i: nat, x: int, next: int)
    requires Keyed(nodes, rows) && i < |rows| && Linked(nodes, head, rows[i])
    requires InStore(nodes, x) && x !in rows[i]
    ensures Linked(SetNext(nodes, x, next), head, rows[i])
  {
    LinkedFrame(nodes, SetNext(nodes, x, next), head, rows[i]);
  }

  /** The store and bucket heads after unlinking the entry at place (h, j). */
  function UnlinkNodes(nodes: seq<Entry>, c: Row, j: nat): seq<Entry>
    requires j < |c| && forall k :: 0 <= k < |c| ==> 0 <= c[k] < |nodes|
  {
    if j == 0 then nodes else SetNext(nodes, c[j - 1], nodes[c[j]].next)
  }

  lemma UnlinkKeepsLinks(nodes: seq<Entry>, table: seq<int>, rows: seq<Row>, h: nat, j: nat)
    requires AllLinked(nodes, table, rows) && Keyed(nodes, rows) && h < |rows| && j < |rows[h]|
    requires forall k :: 0 <= k < |rows[h]| ==> 0 <= rows[h][k] < |nodes|
    ensures var table' := if j == 0 then table[h := nodes[rows[h][0]].next] else table;
            AllLinked(UnlinkNodes(nodes, rows[h], j), table', rows[h := Without(rows[h], j)])
  {
    var table' := if j == 0 then table[h := nodes[rows[h][0]].next] else table;
    var nodes', rows' := UnlinkNodes(nodes, rows[h], j), rows[h := Without(rows[h], j)];
    forall i | 0 <= i < |rows|
      ensures Linked(nodes', table'[i], rows'[i])
    {
      assert Linked(nodes, table[i], rows[i]);
      if i == h {
        RowIsDistinct(nodes, rows, h);
        UnlinkRow(nodes, table[h], rows[h], j);
      } else if j > 0 {
        forall k | 0 <= k < |rows[i]|
          ensures rows[i][k] != rows[h][j - 1]
        {
          PlacesDiffer(nodes, rows, i, k, h, j - 1);
        }
        OtherRowStays(nodes, rows, table[i], i, rows[h][j - 1], nodes[rows[h][j]].next);
      }
    }
  }

  lemma {:induction false} LinkedAt(nodes: seq<Entry>, head: int, c: Row, j: nat)
    requires Linked(nodes, head, c) && j < |c|
    ensures InStore(nodes, c[j]) && nodes[c[j]].next == At(c, j + 1)
    decreases |c|
  {
    if j > 0 {
      LinkedAt(nodes, nodes[head].next, c[1..], j - 1);
    } else {
      assert c[1..] == [] || c[1..][0] == c[1];
    }
  }

  // ----- All entries, in table order -----

  ghost function KeyOf(nodes: seq<Entry>, x: int): Key {
    if InStore(nodes, x) then nodes[x].key else []
  }

  ghost function KeysOf(nodes: seq<Entry>, c: Row): seq<Key> {
    seq(|c|, j requires 0 <= j < |c| => KeyOf(nodes, c[j]))
  }

  /** Entries in table order: each belongs to a bucket at or after `i`, and no key
      comes twice. */
  lemma {:induction false} TableOrder(nodes: seq<Entry>, rows: seq<Row>, i: nat)
    requires Keyed(nodes, rows) && i <= |rows|
    ensures var f := Flat(rows[i..]);
            && (forall a :: 0 <= a < |f| ==> InStore(nodes, f[a]) && Slot(nodes[f[a]].key, |rows|) >= i)
            && (forall a, b :: 0 <= a < b < |f| ==> nodes[f[a]].key != nodes[f[b]].key)
    decreases |rows| - i
  {
    if i < |rows| {
      TableOrder(nodes, rows, i + 1);
      FlatSplits(rows, i);
      assert RowKeys(nodes, rows[i], i, |rows|);
    } else {
      assert rows[i..] == [];
    }
  }

  /** Walking all rows meets every mapped key, exactly once, and nothing else. */
  lemma TableOrderIsComplete(nodes: seq<Entry>, rows: seq<Row>, e: map<Key, int>)
    requires Indexed(nodes, rows, e)
    ensures var ks := KeysOf(nodes, Flat(rows));
            && (forall k :: k in ks <==> k in e)
            && (forall a, b :: 0 <= a < b < |ks| ==> ks[a] != ks[b])
  {
    var f, ks := Flat(rows), KeysOf(nodes, Flat(rows));
    assert rows[0..] == rows;
    TableOrder(nodes, rows, 0);
    forall k | k in e
      ensures k in ks
    {
      assert Placed(nodes, rows, k, e[k]);
      FlatContains(rows, e[k]);
      var a :| 0 <= a < |f| && f[a] == e[k];
      assert ks[a] == k;
    }
    forall a | 0 <= a < |ks|
      ensures ks[a] in e
    {
      FlatContains(rows, f[a]);
      var i :| 0 <= i < |rows| && f[a] in rows[i];
      var j :| 0 <= j < |rows[i]| && rows[i][j] == f[a];
      assert Registered(nodes, e, rows[i][j]);
    }
  }

  lemma FirstKey(nodes: seq<Entry>, x: int, rest: Row)
    ensures KeysOf(nodes, [x] + rest) == [KeyOf(nodes, x)] + KeysOf(nodes, rest)
  {
  }

  lemma KeysStay(nodes: seq<Entry>, nodes': seq<Entry>, c: Row)
    requires SameKeys(nodes, nodes') && |nodes| == |nodes'|
    ensures KeysOf(nodes', c) == KeysOf(nodes, c)
  {
  }

  lemma RestIsDistinct(x: int, rest: Row)
    requires Distinct([x] + rest)
    ensures Distinct(rest) && x !in rest
  {
    var c := [x] + rest;
    assert c[0] == x && c[1..] == rest;
    forall j | 0 <= j < |rest|
      ensures rest[j] != x
    {
      assert c[j + 1] == rest[j];
    }
  }
}
