/** The hash table of dict.c against a finite map, with its iterator. */
module Dicts {
  import opened Bytes
  import opened DictRows
  import opened DictLinks
  import opened DictRehash

  class Dict {
    /** Bucket heads; empty when no table has been allocated. */
    var table: seq<int>
    var size: nat
    var sizemask: nat
    var used: nat
    /** All entries ever allocated. */
    var nodes: seq<Entry>
    ghost var rows: seq<Row>
    ghost var entries: map<Key, int>

    ghost predicate Valid()
      reads this
    {
      && |table| == size == |rows|
      && (size == 0 || (IsPow2(size) && size >= DICT_HT_INITIAL_SIZE))
      && sizemask == (if size == 0 then 0 else size - 1)
      && used == |Flat(rows)| == |entries| <= size
      && AllLinked(nodes, table, rows)
      && Indexed(nodes, rows, entries)
    }

    /** The finite map the table stands for. */
    ghost function M(): map<Key, int>
      requires Valid()
      reads this
    {
      map k | k in entries :: Val(k)
    }

    ghost function Val(k: Key): int
      requires Valid() && k in entries
      reads this
    {
      assert Placed(nodes, rows, k, entries[k]);
      nodes[entries[k]].val
    }

    /** dictCreate. */
    constructor ()
      ensures Valid() && M() == map[]
    {
      table, size, sizemask, used, nodes := [], 0, 0, 0, [];
      rows, entries := [], map[];
    }

    /** The search loop over the chain of bucket `h`. */
    method Search(h: nat, key: Key) returns (he: int, prev: int, ghost j: nat)
      requires Valid() && size > 0 && h == Slot(key, size)
      ensures he == NULL <==> key !in entries
      ensures he != NULL ==>
                && j < |rows[h]| && he == rows[h][j] == entries[key] && InStore(nodes, he) && nodes[he].key == key
                && prev == At(rows[h], j - 1)
    {
      he, prev, j := table[h], NULL, 0;
      assert Linked(nodes, table[h], rows[h]);
      assert rows[h][0..] == rows[h];
      while he != NULL
        invariant 0 <= j <= |rows[h]| && Linked(nodes, he, rows[h][j..]) && prev == At(rows[h], j - 1)
        invariant forall k :: 0 <= k < j ==> InStore(nodes, rows[h][k]) && nodes[rows[h][k]].key != key
        decreases |rows[h]| - j
      {
        assert he == rows[h][j];
        if nodes[he].key == key {
          assert Registered(nodes, entries, rows[h][j]);
          return;
        }
        assert rows[h][j..][1..] == rows[h][j + 1..];
        prev, he, j := he, nodes[he].next, j + 1;
      }
      assert j == |rows[h]|;
      KeyHasItsRow(nodes, rows, entries, key);
    }

    /** dictFind. */
    method Find(key: Key) returns (he: int)
      requires Valid()
      ensures he == NULL <==> key !in M()
      ensures he != NULL ==>
                && he == entries[key] && InStore(nodes, he)
                && nodes[he].key == key && nodes[he].val == M()[key]
    {
      if size == 0 {
        KeyHasItsRow(nodes, rows, entries, key);
        return NULL;
      }
      var hash := GenHash(key);
      var prev;
      ghost var j;
      he, prev, j := Search(And(hash, sizemask), key);
    }

    /** dictExpand: rehashing loses and duplicates nothing. */
    method Expand(newsize: nat) returns (ok: bool)
      requires Valid()
      modifies this
      ensures Valid() && M() == old(M()) && used == old(used) && entries == old(entries)
      ensures ok <==> old(used) <= newsize
      ensures ok ==> size >= newsize && size >= DICT_HT_INITIAL_SIZE
      ensures !ok ==> size == old(size)
    {
      var realsize := NextPower(newsize);
      if used > newsize { return false; }
      Install(realsize);
      return true;
    }

    /** Replace the table by one of capacity `realsize`, with all entries relinked. */
    method Install(realsize: nat)
      requires Valid() && IsPow2(realsize) && realsize >= DICT_HT_INITIAL_SIZE && used <= realsize
      modifies this
      ensures Valid() && M() == old(M()) && used == old(used) && entries == old(entries) && size == realsize
    {
      ghost var nodes0, rows0 := nodes, rows;
      var nodes', table';
      ghost var rows';
      nodes', table', rows' := Rehash(nodes, table, rows, entries, used, realsize);
      nodes, table, size, sizemask, rows := nodes', table', realsize, realsize - 1, rows';
      forall k | k in entries
        ensures Val(k) == old(Val(k))
      {
        assert Placed(nodes0, rows0, k, entries[k]);
      }
    }

    /** _dictExpandIfNeeded: afterwards there is room for one more entry. */
    method ExpandIfNeeded() returns (ok: bool)
      requires Valid()
      modifies this
      ensures Valid() && ok && M() == old(M()) && entries == old(entries) && used == old(used)
      ensures size > 0 && used < size
    {
      if size == 0 {
        ok := Expand(DICT_HT_INITIAL_SIZE);
      } else if used == size {
        ok := Expand(size * 2);
      } else {
        ok := true;
      }
    }

    /** dictAdd. */
    method Add(key: Key, val: int) returns (ok: bool)
      requires Valid()
      modifies this
      ensures Valid() && (ok <==> key !in old(M()))
      ensures M() == if ok then old(M())[key := val] else old(M())
      ensures used == |M()| <= size
    {
      var room := ExpandIfNeeded();
      var hash := GenHash(key);
      var h := And(hash, sizemask);
      var he, prev, j := Search(h, key);
      if he != NULL {
        assert M().Keys == entries.Keys;
        return false;
      }
      Prepend(h, key, val);
      assert M().Keys == entries.Keys;
      return true;
    }

    /** A new entry in front of bucket `h`. */
    method Prepend(h: nat, key: Key, val: int)
      requires Valid() && size > 0 && h == Slot(key, size) && key !in entries && used < size
      modifies this
      ensures Valid() && M() == old(M())[key := val]
    {
      var x := |nodes|;
      ghost var nodes0, table0, rows0, entries0 := nodes, table, rows, entries;
      nodes := nodes + [Entry(key, val, table[h])];
      table := table[h := x];
      used := used + 1;
      rows, entries := rows[h := [x] + rows[h]], entries[key := x];
      PrependToTable(nodes0, table0, rows0, entries0, h, nodes[x]);
      FlatUpdate(rows0, h, [x] + rows0[h]);
      forall k | k in entries
        ensures Val(k) == if k == key then val else old(M())[k]
      {
        if k != key {
          assert Placed(nodes0, rows0, k, entries0[k]);
        }
      }
    }

    /** dictReplace. */
    method Replace(key: Key, val: int) returns (added: bool)
      requires Valid()
      modifies this
      ensures Valid() && (added <==> key !in old(M()))
      ensures M() == old(M())[key := val]
    {
      added := Add(key, val);
      if !added {
        var he := Find(key);
        SetVal(he, val);
      }
    }

    method SetVal(he: int, val: int)
      requires Valid() && InStore(nodes, he) && nodes[he].key in entries && entries[nodes[he].key] == he
      modifies this`nodes
      ensures Valid() && M() == old(M())[old(nodes)[he].key := val]
    {
      ghost var nodes0 := nodes;
      nodes := nodes[he := nodes[he].(val := val)];
      IndexedFrame(nodes0, nodes, rows, entries);
      forall i | 0 <= i < |rows|
        ensures Linked(nodes, table[i], rows[i])
      {
        assert Linked(nodes0, table[i], rows[i]);
        LinkedFrame(nodes0, nodes, table[i], rows[i]);
      }
      forall k | k in entries
        ensures Val(k) == if k == nodes0[he].key then val else old(M())[k]
      {
        assert Placed(nodes0, rows, k, entries[k]);
      }
    }

    /** dictDelete. */
    method Delete(key: Key) returns (ok: bool, ghost h: nat, ghost j: nat)
      requires Valid()
      modifies this
      ensures Valid() && (ok <==> key in old(M()))
      ensures M() == old(M()) - {key} && size == old(size)
      ensures ok ==> h < |old(rows)| && j < |old(rows)[h]| && old(rows)[h][j] == old(entries)[key]
      ensures rows == if ok then old(rows)[h := Without(old(rows)[h], j)] else old(rows)
      ensures SameKeys(old(nodes), nodes) && |nodes| == |old(nodes)|
    {
      h, j := 0, 0;
      if size == 0 {
        KeyHasItsRow(nodes, rows, entries, key);
        return false, h, j;
      }
      var hash := GenHash(key);
      var b := And(hash, sizemask);
      var de, prevde, q := Search(b, key);
      if de == NULL { return false, h, j; }
      Unlink(b, de, prevde, q);
      return true, b, q;
    }

    /** _dictClear: every entry is destroyed exactly once, although the loop stops
        as soon as its count of entries left reaches zero. */
    method Clear() returns (destroyed: seq<Key>)
      requires Valid()
      modifies this
      ensures Valid() && M() == map[] && size == 0
      ensures forall k :: k in destroyed <==> k in old(M())
      ensures forall a, b :: 0 <= a < b < |destroyed| ==> destroyed[a] != destroyed[b]
    {
      destroyed := WalkRows(nodes, table, used, rows);
      TableOrderIsComplete(nodes, rows, entries);
      table, size, sizemask, used := [], 0, 0, 0;
      rows, entries := [], map[];
    }

    /** Take the entry at place (h, j) out of its chain. */
    method Unlink(h: nat, de: int, prevde: int, ghost j: nat)
      requires Valid() && h < size && j < |rows[h]| && de == rows[h][j] && prevde == At(rows[h], j - 1)
      requires InStore(nodes, de)
      modifies this
      ensures Valid() && M() == old(M()) - {old(nodes)[de].key} && size == old(size)
      ensures rows == old(rows)[h := Without(old(rows)[h], j)]
      ensures SameKeys(old(nodes), nodes) && |nodes| == |old(nodes)|
    {
      ghost var nodes0, rows0, entries0 := nodes, rows, entries;
      assert RowKeys(nodes, rows[h], h, |rows|);
      assert Registered(nodes, entries, rows[h][j]);
      UnlinkKeepsLinks(nodes, table, rows, h, j);
      RemoveIndexed(nodes, rows, h, j, entries);
      FlatUpdate(rows, h, Without(rows[h], j));
      rows, entries := rows[h := Without(rows[h], j)], entries - {nodes[de].key};
      if prevde != NULL {
        nodes := SetNext(nodes, prevde, nodes[de].next);
      } else {
        table := table[h := nodes[de].next];
      }
      used := used - 1;
      IndexedFrame(nodes0, nodes, rows, entries);
      forall k | k in entries
        ensures Val(k) == old(M())[k]
      {
        assert Placed(nodes0, rows0, k, entries0[k]);
      }
    }
  }

  lemma PrependToTable(nodes: seq<Entry>, table: seq<int>, rows: seq<Row>, e: map<Key, int>, h: nat, n: Entry)
    requires AllLinked(nodes, table, rows) && Indexed(nodes, rows, e) && h < |rows|
    requires h == Slot(n.key, |rows|) && n.key !in e && n.next == table[h]
    ensures AllLinked(nodes + [n], table[h := |nodes|], rows[h := [|nodes|] + rows[h]])
    ensures Indexed(nodes + [n], rows[h := [|nodes|] + rows[h]], e[n.key := |nodes|])
  {
    var x, nodes' := |nodes|, nodes + [n];
    IndexedFrame(nodes, nodes', rows, e);
    PrependIndexed(nodes', rows, h, x, e);
    var table', rows' := table[h := x], rows[h := [x] + rows[h]];
    forall i | 0 <= i < |rows|
      ensures Linked(nodes', table'[i], rows'[i])
    {
      assert Linked(nodes, table[i], rows[i]);
      LinkedFrame(nodes, nodes', table[i], rows[i]);
      if i == h {
        assert rows'[h][1..] == rows[h];
      }
    }
  }

  /** The keys met by walking one chain. */
  method WalkRow(nodes: seq<Entry>, head: int, ghost c: Row) returns (keys: seq<Key>)
    requires Linked(nodes, head, c)
    ensures keys == KeysOf(nodes, c)
  {
    keys := [];
    var he := head;
    ghost var j := 0;
    assert c[0..] == c;
    while he != NULL
      invariant 0 <= j <= |c| && Linked(nodes, he, c[j..])
      invariant keys == KeysOf(nodes, c[..j])
      decreases |c| - j
    {
      assert he == c[j] && c[j..][1..] == c[j + 1..];
      assert c[..j + 1] == c[..j] + [c[j]];
      keys := keys + [nodes[he].key];
      he, j := nodes[he].next, j + 1;
    }
    assert c[..j] == c;
  }

  /** The row loop of _dictClear. */
  method WalkRows(nodes: seq<Entry>, table: seq<int>, used0: nat, ghost rows: seq<Row>) returns (destroyed: seq<Key>)
    requires AllLinked(nodes, table, rows) && used0 == |Flat(rows)|
    ensures destroyed == KeysOf(nodes, Flat(rows))
  {
    destroyed := [];
    var i, used := 0, used0;
    ghost var done: Row := [];
    assert rows[0..] == rows;
    while i < |table| && used > 0
      invariant 0 <= i <= |rows|
      invariant done + Flat(rows[i..]) == Flat(rows) && used == |Flat(rows[i..])|
      invariant destroyed == KeysOf(nodes, done)
    {
      FlatSplits(rows, i);
      assert Linked(nodes, table[i], rows[i]);
      var keys := WalkRow(nodes, table[i], rows[i]);
      used := used - |keys|;
      destroyed := destroyed + keys;
      done := done + rows[i];
      i := i + 1;
    }
    assert Flat(rows[i..]) == [];
    assert done == Flat(rows);
  }

  /** Where an iterator stands in the rows: `tail` is left of the current chain. */
  ghost predicate StandsAt(rows: seq<Row>, index: int, entry: int, nextEntry: int, tail: Row) {
    && -1 <= index
    && (entry == NULL ==> tail == [])
    && (entry != NULL ==>
          && 0 <= index < |rows|
          && |tail| <= |rows[index]|
          && rows[index][|rows[index]| - |tail|..] == tail
          && nextEntry == At(tail, 0))
  }

  ghost function Left(rows: seq<Row>, index: int, tail: Row): Row
    requires -1 <= index
  {
    tail + if index + 1 <= |rows| then Flat(rows[index + 1..]) else []
  }

  /** dictIterator. */
  class DictIterator {
    const ht: Dict
    var index: int
    var entry: int
    var nextEntry: int
    /** What is left of the chain of the current bucket. */
    ghost var tail: Row

    ghost predicate Valid()
      reads this, ht
    {
      ht.Valid() && StandsAt(ht.rows, index, entry, nextEntry, tail)
    }

    /** The entries still to come, in order. */
    ghost function Remaining(): Row
      requires ht.Valid() && -1 <= index
      reads this, ht
    {
      Left(ht.rows, index, tail)
    }

    /** dictGetIterator. */
    constructor (ht: Dict)
      requires ht.Valid()
      ensures Valid() && this.ht == ht && Remaining() == Flat(ht.rows)
    {
      this.ht, index, entry, nextEntry, tail := ht, -1, NULL, NULL, [];
      new;
      assert ht.rows[0..] == ht.rows;
    }

    /** dictNext: the next remaining entry, whose successor is remembered now
        because the caller may delete the entry. */
    method Next() returns (r: int)
      requires Valid()
      modifies this
      ensures Valid()
      ensures r == NULL ==> old(Remaining()) == [] == Remaining()
      ensures r != NULL ==> old(Remaining()) == [r] + Remaining()
    {
      ghost var all := Remaining();
      var stop := false;
      r := NULL;
      while !stop
        invariant Valid()
        invariant !stop ==> Remaining() == all
        invariant stop ==> if r == NULL then all == [] == Remaining() else all == [r] + Remaining()
        decreases !stop, ht.size + 1 - index, entry != NULL
      {
        stop, r := Turn();
      }
    }

    /** One turn of the loop of dictNext: an entry, the end, or neither yet. */
    method Turn() returns (stop: bool, r: int)
      requires Valid()
      modifies this
      ensures Valid()
      ensures stop && r == NULL ==> old(Remaining()) == [] == Remaining()
      ensures stop && r != NULL ==> old(Remaining()) == [r] + Remaining()
      ensures !stop ==> Remaining() == old(Remaining()) && entry == NULL && index <= ht.size
      ensures !stop ==> index == old(index) + if old(entry) == NULL then 1 else 0
    {
      var end := Advance();
      if end { return true, NULL; }
      if entry != NULL {
        Remember();
        return true, entry;
      }
      NullEndsChain();
      return false, NULL;
    }

    /** The current bucket's chain from `entry` on is what is left of it. */
    ghost predicate Poised()
      reads this, ht
    {
      && ht.Valid() && 0 <= index < ht.size
      && |tail| <= |ht.rows[index]|
      && ht.rows[index][|ht.rows[index]| - |tail|..] == tail
      && entry == At(tail, 0)
    }

    /** One step: to the next bucket, or to the remembered successor. */
    method Advance() returns (end: bool)
      requires Valid()
      modifies this
      ensures ht.Valid() && -1 <= index && Remaining() == old(Remaining())
      ensures end ==> Valid() && Remaining() == []
      ensures !end ==> Poised()
      ensures !end ==> index == old(index) + (if old(entry) == NULL then 1 else 0)
    {
      if entry == NULL {
        NextBucket();
        return index >= ht.size;
      }
      entry := nextEntry;
      return false;
    }

    lemma NullEndsChain()
      requires Poised()
      ensures At(tail, 0) == NULL ==> tail == []
    {
      assert RowKeys(ht.nodes, ht.rows[index], index, |ht.rows|);
      if tail != [] {
        assert tail[0] == ht.rows[index][|ht.rows[index]| - |tail|];
      }
    }

    /** Step to the next bucket. */
    method NextBucket()
      requires Valid() && entry == NULL
      modifies this
      ensures index == old(index) + 1 && ht.Valid()
      ensures index >= ht.size ==> Valid() && entry == NULL && old(Remaining()) == [] == Remaining()
      ensures index < ht.size ==>
                && tail == ht.rows[index] && entry == At(tail, 0)
                && Remaining() == old(Remaining())
    {
      index := index + 1;
      if index < ht.size {
        assert Linked(ht.nodes, ht.table[index], ht.rows[index]);
        entry := ht.table[index];
        tail := ht.rows[index];
        FlatSplits(ht.rows, index);
      } else if index == ht.size {
        assert ht.rows[index..] == [];
      }
    }

    lemma RemainingRegistered()
      requires Valid()
      ensures forall a :: 0 <= a < |Remaining()| ==> Registered(ht.nodes, ht.entries, Remaining()[a])
    {
      if index + 1 <= |ht.rows| {
        LaterRegistered(ht.nodes, ht.rows, ht.entries, index + 1);
      }
      if tail != [] {
        TailRegistered(ht.nodes, ht.rows, ht.entries, index, tail);
      }
    }

    /** The caller deletes the entry that was just returned. */
    method DeleteCurrent(r: int)
      requires Valid() && Registered(ht.nodes, ht.entries, r) && r !in Remaining()
      modifies ht
      ensures Valid() && Remaining() == old(Remaining())
      ensures KeysOf(ht.nodes, Remaining()) == KeysOf(old(ht.nodes), Remaining())
      ensures ht.M() == old(ht.M()) - {old(ht.nodes)[r].key}
    {
      ghost var rows, nodes := ht.rows, ht.nodes;
      var ok, h, j := ht.Delete(ht.nodes[r].key);
      DeleteBehind(rows, index, entry, nextEntry, tail, h, j);
      KeysStay(nodes, ht.nodes, Left(rows, index, tail));
    }

    /** Next, together with what is known of the entry it returns. */
    method Take() returns (r: int)
      requires Valid() && Distinct(Remaining())
      modifies this
      ensures Valid() && Distinct(Remaining())
      ensures r == NULL ==> old(Remaining()) == [] == Remaining()
      ensures r != NULL ==>
                && Registered(ht.nodes, ht.entries, r) && r !in Remaining()
                && |old(Remaining())| == |Remaining()| + 1
                && KeysOf(ht.nodes, old(Remaining())) == [ht.nodes[r].key] + KeysOf(ht.nodes, Remaining())
    {
      ghost var before := Remaining();
      RemainingRegistered();
      r := Next();
      if r != NULL {
        assert before[0] == r;
        RestIsDistinct(r, Remaining());
        FirstKey(ht.nodes, r, Remaining());
      }
    }

    /** One turn of an iteration: take the next entry and perhaps delete it. */
    method Visit() returns (more: bool, key: Key, deleted: set<Key>)
      requires Valid() && Distinct(Remaining())
      modifies this, ht
      ensures Valid() && Distinct(Remaining())
      ensures !more ==> old(Remaining()) == [] == Remaining()
      ensures more ==> |Remaining()| < |old(Remaining())|
      ensures KeysOf(old(ht.nodes), old(Remaining())) == (if more then [key] else []) + KeysOf(ht.nodes, Remaining())
      ensures ht.M() == old(ht.M()) - deleted && deleted <= (if more then {key} else {})
    {
      deleted := {};
      var r := Take();
      if r == NULL { return false, [], deleted; }
      key := ht.nodes[r].key;
      var delete: bool := *;
      if delete {
        DeleteCurrent(r);
        deleted := {key};
      }
      return true, key, deleted;
    }

    /** Save the successor of the entry about to be returned. */
    method Remember()
      requires Poised() && tail != []
      modifies this`nextEntry, this`tail
      ensures Valid() && old(Remaining()) == [entry] + Remaining()
    {
      ghost var row := ht.rows[index];
      ghost var j := |row| - |tail|;
      assert Linked(ht.nodes, ht.table[index], row);
      assert row[j] == tail[0];
      LinkedAt(ht.nodes, ht.table[index], row, j);
      nextEntry := ht.nodes[entry].next;
      assert tail == [entry] + tail[1..];
      tail := tail[1..];
      assert row[j + 1..] == tail;
    }
  }

  lemma TailRegistered(nodes: seq<Entry>, rows: seq<Row>, e: map<Key, int>, index: nat, tail: Row)
    requires Indexed(nodes, rows, e) && index < |rows|
    requires |tail| <= |rows[index]| && rows[index][|rows[index]| - |tail|..] == tail
    ensures forall a :: 0 <= a < |tail| ==> Registered(nodes, e, tail[a])
  {
    forall a | 0 <= a < |tail|
      ensures Registered(nodes, e, tail[a])
    {
      var j := |rows[index]| - |tail| + a;
      assert rows[index][j] == tail[a];
      assert Registered(nodes, e, rows[index][j]);
    }
  }

  lemma LaterRegistered(nodes: seq<Entry>, rows: seq<Row>, e: map<Key, int>, from: nat)
    requires Indexed(nodes, rows, e) && from <= |rows|
    ensures forall a :: 0 <= a < |Flat(rows[from..])| ==> Registered(nodes, e, Flat(rows[from..])[a])
  {
    var later := rows[from..];
    forall a | 0 <= a < |Flat(later)|
      ensures Registered(nodes, e, Flat(later)[a])
    {
      var x := Flat(later)[a];
      FlatContains(later, x);
      var i :| 0 <= i < |later| && x in later[i];
      var j :| 0 <= j < |later[i]| && later[i][j] == x;
      assert Registered(nodes, e, rows[from + i][j]);
    }
  }

  /** A row that holds an entry not to come any more is not among the later rows. */
  lemma LaterRowsStay(rows: seq<Row>, from: nat, h: nat, j: nat, row: Row)
    requires from <= |rows| && h < |rows| && j < |rows[h]| && rows[h][j] !in Flat(rows[from..])
    ensures h < from && rows[h := row][from..] == rows[from..]
  {
    if h >= from {
      InLaterRow(rows, from, h, j);
    }
  }

  lemma InLaterRow(rows: seq<Row>, from: nat, h: nat, j: nat)
    requires from <= h < |rows| && j < |rows[h]|
    ensures rows[h][j] in Flat(rows[from..])
  {
    var later, x := rows[from..], rows[h][j];
    FlatContains(later, x);
    assert x in later[h - from];
  }

  lemma TailStays(row: Row, tail: Row, j: nat)
    requires j < |row| && |tail| <= |row| && row[|row| - |tail|..] == tail && row[j] !in tail
    ensures var row' := Without(row, j); |tail| <= |row'| && row'[|row'| - |tail|..] == tail
  {
    var p := |row| - |tail|;
    if j >= p {
      InTail(row, tail, j);
    }
    assert Without(row, j)[p - 1..] == row[p..];
  }

  lemma InTail(row: Row, tail: Row, j: nat)
    requires |row| - |tail| <= j < |row| && 0 <= |row| - |tail| && row[|row| - |tail|..] == tail
    ensures row[j] in tail
  {
    assert row[j] == tail[j - (|row| - |tail|)];
  }

  /** Deleting an entry that is not among those still to come does not disturb them. */
  lemma DeleteBehind(rows: seq<Row>, index: int, entry: int, nextEntry: int, tail: Row, h: nat, j: nat)
    requires h < |rows| && j < |rows[h]|
    requires StandsAt(rows, index, entry, nextEntry, tail)
    requires rows[h][j] !in Left(rows, index, tail)
    ensures var rows' := rows[h := Without(rows[h], j)];
            && StandsAt(rows', index, entry, nextEntry, tail)
            && Left(rows', index, tail) == Left(rows, index, tail)
  {
    if index + 1 <= |rows| {
      LaterRowsStay(rows, index + 1, h, j, Without(rows[h], j));
    }
    if h == index && entry != NULL {
      TailStays(rows[h], tail, j);
    }
  }

  lemma MinusTwice(m: map<Key, int>, a: set<Key>, b: set<Key>)
    ensures m - a - b == m - (a + b)
  {
  }

  /** Iterate to the end. */
  method VisitRest(it: DictIterator) returns (visited: seq<Key>, deleted: set<Key>)
    requires it.Valid() && Distinct(it.Remaining())
    modifies it, it.ht
    ensures it.Valid()
    ensures visited == KeysOf(old(it.ht.nodes), old(it.Remaining()))
    ensures it.ht.M() == old(it.ht.M()) - deleted
    decreases |it.Remaining()|
  {
    ghost var m := it.ht.M();
    var more, key, gone := it.Visit();
    if !more { return [], gone; }
    var rest, others := VisitRest(it);
    MinusTwice(m, gone, others);
    return [key] + rest, gone + others;
  }

  /** An iteration over the whole table during which the caller may delete each
      entry as soon as it is returned: every key is visited, exactly once, and the
      table then holds what was not deleted. */
  method VisitAll(d: Dict) returns (visited: seq<Key>, deleted: set<Key>)
    requires d.Valid()
    modifies d
    ensures d.Valid()
    ensures forall k :: k in visited <==> k in old(d.M())
    ensures forall a, b :: 0 <= a < b < |visited| ==> visited[a] != visited[b]
    ensures d.M() == old(d.M()) - deleted
  {
    TableOrderIsComplete(d.nodes, d.rows, d.entries);
    assert d.rows[0..] == d.rows;
    TableOrder(d.nodes, d.rows, 0);
    var it := new DictIterator(d);
    visited, deleted := VisitRest(it);
  }

  // ----- Any sequence of operations -----

  datatype DictOp = AddOp(key: Key, val: int) | ReplaceOp(key: Key, val: int) | DeleteOp(key: Key) | FindOp(key: Key)

  /** What an operation answers: whether it added or deleted, or the value found. */
  datatype Answer = Flag(b: bool) | Found(val: Option<int>)

  function ApplyTo(m: map<Key, int>, op: DictOp): (map<Key, int>, Answer) {
    match op
    case AddOp(k, v) => if k in m then (m, Flag(false)) else (m[k := v], Flag(true))
    case ReplaceOp(k, v) => (m[k := v], Flag(k !in m))
    case DeleteOp(k) => (m - {k}, Flag(k in m))
    case FindOp(k) => (m, Found(if k in m then Some(m[k]) else None))
  }

  function ApplyAll(m: map<Key, int>, ops: seq<DictOp>): (map<Key, int>, seq<Answer>)
    decreases |ops|
  {
    if ops == [] then (m, [])
    else
      var (m1, a) := ApplyTo(m, ops[0]);
      var (m2, rest) := ApplyAll(m1, ops[1..]);
      (m2, [a] + rest)
  }

  method RunOne(d: Dict, op: DictOp) returns (a: Answer)
    requires d.Valid()
    modifies d
    ensures d.Valid() && (d.M(), a) == ApplyTo(old(d.M()), op)
  {
    match op {
      case AddOp(k, v) =>
        var ok := d.Add(k, v);
        a := Flag(ok);
      case ReplaceOp(k, v) =>
        var added := d.Replace(k, v);
        a := Flag(added);
      case DeleteOp(k) =>
        var ok, h, j := d.Delete(k);
        a := Flag(ok);
      case FindOp(k) =>
        var he := d.Find(k);
        a := Found(if he == NULL then None else Some(d.nodes[he].val));
    }
  }

  /** Over every sequence of operations the table and a finite map give the same
      answers and end with the same contents. */
  method RunAll(d: Dict, ops: seq<DictOp>) returns (answers: seq<Answer>)
    requires d.Valid()
    modifies d
    ensures d.Valid() && (d.M(), answers) == ApplyAll(old(d.M()), ops)
    decreases |ops|
  {
    if ops == [] { return []; }
    var a := RunOne(d, ops[0]);
    var rest := RunAll(d, ops[1..]);
    return [a] + rest;
  }
}
