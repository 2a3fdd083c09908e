/** Bucket rows of a chained hash table as values: hashing, masking, capacities,
    and the bookkeeping lemmas the table in module Dicts relies on. */
module DictRows {
  import opened Bytes

  type Key = seq<Byte>

  const DICT_HT_INITIAL_SIZE: nat := 4

  // ----- Hashing -----

  /** dictGenHashFunction, Bernstein's hash in 32-bit arithmetic. */
  function HashOf(key: Key): (h: nat)
    ensures h < 0x1_0000_0000
  {
    if key == [] then 5381 else (HashOf(key[..|key| - 1]) * 33 + key[|key| - 1]) % 0x1_0000_0000
  }

  method GenHash(buf: Key) returns (hash: nat)
    ensures hash == HashOf(buf)
  {
    hash := 5381;
    var i := 0;
    while i < |buf|
      invariant 0 <= i <= |buf| && hash == HashOf(buf[..i])
    {
      assert buf[..i + 1][..i] == buf[..i];
      hash := (hash * 32 + hash + buf[i]) % 0x1_0000_0000;
      i := i + 1;
    }
    assert buf[..i] == buf;
  }

  // ----- Capacities and masks -----

  predicate IsPow2(n: nat) {
    n == 1 || (n > 1 && n % 2 == 0 && IsPow2(n / 2))
  }

  /** Bitwise and of two naturals. */
  function And(a: nat, b: nat): (r: nat)
    ensures r <= a && r <= b
  {
    if a == 0 || b == 0 then 0
    else 2 * And(a / 2, b / 2) + (if a % 2 == 1 && b % 2 == 1 then 1 else 0)
  }

  /** With a power of two as capacity the mask leaves every small hash alone, so
      every bucket can be reached; this is why capacities are powers of two. */
  lemma {:induction false} MaskReachesEveryBucket(i: nat, size: nat)
    requires IsPow2(size) && i < size
    ensures And(i, size - 1) == i
    decreases size
  {
    if size > 1 && i > 0 {
      assert (size - 1) / 2 == size / 2 - 1 && (size - 1) % 2 == 1;
      MaskReachesEveryBucket(i / 2, size / 2);
    }
  }

  /** _dictNextPower: the least capacity that holds `size` entries. */
  method NextPower(size: nat) returns (i: nat)
    ensures IsPow2(i) && i >= 4 && i >= size
    ensures i == 4 || i / 2 < size
  {
    i := DICT_HT_INITIAL_SIZE;
    assert IsPow2(2);
    while i < size
      invariant IsPow2(i) && i >= DICT_HT_INITIAL_SIZE
      invariant i == DICT_HT_INITIAL_SIZE || i / 2 < size
    {
      i := i * 2;
    }
  }

  /** The bucket a key belongs to. */
  function Slot(key: Key, size: nat): (i: nat)
    requires size > 0
    ensures i < size
  {
    And(HashOf(key), size - 1)
  }

  // ----- Rows -----

  function Flat<T>(rows: seq<seq<T>>): seq<T> {
    if rows == [] then [] else rows[0] + Flat(rows[1..])
  }

  lemma {:induction false} FlatSplits<T>(rows: seq<seq<T>>, i: nat)
    requires i < |rows|
    ensures Flat(rows) == Flat(rows[..i]) + rows[i] + Flat(rows[i + 1..])
    ensures Flat(rows[i..]) == rows[i] + Flat(rows[i + 1..])
    decreases i
  {
    if i > 0 {
      FlatSplits(rows[1..], i - 1);
      assert rows[1..][..i - 1] == rows[..i][1..] && rows[1..][i..] == rows[i + 1..] && rows[1..][i - 1..] == rows[i..];
      assert rows[0] + (Flat(rows[..i][1..]) + rows[i] + Flat(rows[i + 1..]))
          == rows[0] + Flat(rows[..i][1..]) + rows[i] + Flat(rows[i + 1..]);
    } else {
      assert rows[..0] == [] && rows[0..] == rows;
    }
  }

  /** Replacing one row changes the number of entries by the difference of the rows. */
  lemma FlatUpdate<T>(rows: seq<seq<T>>, i: nat, row: seq<T>)
    requires i < |rows|
    ensures |Flat(rows[i := row])| == |Flat(rows)| - |rows[i]| + |row|
  {
    FlatSplits(rows, i);
    FlatSplits(rows[i := row], i);
    assert rows[i := row][..i] == rows[..i] && rows[i := row][i + 1..] == rows[i + 1..];
  }

  lemma {:induction false} FlatOfEmpty<T>(n: nat)
    ensures Flat<T>(seq(n, _ => [])) == []
  {
    if n > 0 {
      FlatOfEmpty<T>(n - 1);
      assert seq<seq<T>>(n, _ => [])[1..] == seq(n - 1, _ => []);
    }
  }

  /** The early exit of the row loops: no entries left means all rows left are empty. */
  lemma {:induction false} NothingLeft<T>(rows: seq<seq<T>>, i: nat)
    requires i < |rows| && |Flat(rows)| == 0
    ensures rows[i] == []
  {
    FlatSplits(rows, i);
  }

  /** Every entry of every row is in the flattening, and nothing else is. */
  lemma {:induction false} FlatContains<T>(rows: seq<seq<T>>, x: T)
    ensures x in Flat(rows) <==> exists i :: 0 <= i < |rows| && x in rows[i]
    decreases |rows|
  {
    if rows != [] {
      FlatContains(rows[1..], x);
      if x in rows[0] {
        assert x in rows[0] + Flat(rows[1..]);
      }
      if exists i :: 0 <= i < |rows| && x in rows[i] {
        var i :| 0 <= i < |rows| && x in rows[i];
        if i > 0 {
          assert x in rows[1..][i - 1];
        }
      }
      if x in Flat(rows[1..]) {
        var i :| 0 <= i < |rows[1..]| && x in rows[1..][i];
        assert x in rows[i + 1];
      }
    }
  }

  function Without<T>(row: seq<T>, j: nat): seq<T>
    requires j < |row|
  {
    row[..j] + row[j + 1..]
  }
}
