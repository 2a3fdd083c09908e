/** The hash of a key and its bucket, in closed form. */
module HashLaws {
  import opened Bytes
  import opened DictRows

  function Pow33(n: nat): nat {
    if n == 0 then 1 else 33 * Pow33(n - 1)
  }

  /** The bytes of a key as the digits of a number to the base 33. */
  function Digits33(key: Key): nat {
    if key == [] then 0 else key[0] * Pow33(|key| - 1) + Digits33(key[1..])
  }

  /** Bernstein's hash without truncation. */
  function Untruncated(key: Key): nat {
    5381 * Pow33(|key|) + Digits33(key)
  }

  lemma {:induction false} DigitsGrow(key: Key, b: Byte)
    ensures Digits33(key + [b]) == 33 * Digits33(key) + b
  {
    if key == [] {
      assert key + [b] == [b] && [b][1..] == [];
    } else {
      var all := key + [b];
      assert all[0] == key[0] && all[1..] == key[1..] + [b];
      DigitsGrow(key[1..], b);
      assert Pow33(|key|) == 33 * Pow33(|key| - 1);
      Scaled(key[0], Pow33(|key| - 1));
    }
  }

  lemma Scaled(a: nat, p: nat)
    ensures a * (33 * p) == 33 * (a * p)
  {
  }

  /** How often 2^32 was taken off. */
  function Carries(key: Key): nat {
    if key == [] then 0
    else
      var n := |key| - 1;
      33 * Carries(key[..n]) + (HashOf(key[..n]) * 33 + key[n]) / 0x1_0000_0000
  }

  /** The hash is 5381 * 33^n and the bytes to the base 33, modulo 2^32. */
  lemma {:induction false} HashIsPolynomial(key: Key)
    ensures Untruncated(key) == Carries(key) * 0x1_0000_0000 + HashOf(key) && HashOf(key) < 0x1_0000_0000
    decreases |key|
  {
    if key != [] {
      var n := |key| - 1;
      HashIsPolynomial(key[..n]);
      assert key == key[..n] + [key[n]];
      DigitsGrow(key[..n], key[n]);
    }
  }

  /** The bucket of a key is the remainder of its hash by the capacity. */
  lemma {:induction false} MaskIsRemainder(a: nat, size: nat) returns (q: nat)
    requires IsPow2(size)
    ensures a == q * size + And(a, size - 1) && And(a, size - 1) < size
    decreases size
  {
    if size == 1 {
      q := a;
    } else {
      var m := size / 2;
      q := MaskIsRemainder(a / 2, m);
      assert (size - 1) / 2 == m - 1 && (size - 1) % 2 == 1;
      Doubled(q, m);
    }
  }

  lemma Doubled(q: nat, m: nat)
    ensures q * (2 * m) == 2 * (q * m)
  {
  }
}
