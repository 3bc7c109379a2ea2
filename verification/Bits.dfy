/** The 256-bit keys of the sparse tree and the bits that steer a search through it. */
module Bits {

  function Pow2(n: nat): (p: nat)
    ensures p > 0
  {
    if n == 0 then 1 else 2 * Pow2(n - 1)
  }

  /** The Soroban host type: unsigned integers of 256 bits. */
  type U256 = x: nat | x < Pow2(256) witness 0

  const KEY_BITS: nat := 256

  /** Bit i of k, counted from the least significant one. */
  predicate Bit(k: nat, i: nat)
    decreases i
  {
    if i == 0 then k % 2 == 1 else Bit(k / 2, i - 1)
  }

  /** The number whose bits, least significant first, are the given ones. */
  function FromBits(bits: seq<bool>): nat {
    if bits == [] then 0 else (if bits[0] then 1 else 0) + 2 * FromBits(bits[1..])
  }

  /** The first n bits of k. */
  function BitsOf(k: nat, n: nat): (bits: seq<bool>)
    ensures |bits| == n && forall i :: 0 <= i < n ==> bits[i] == Bit(k, i)
  {
    seq(n, i requires 0 <= i => Bit(k, i))
  }

  lemma {:induction false} BitsRecompose(k: nat, n: nat)
    requires k < Pow2(n)
    ensures FromBits(BitsOf(k, n)) == k
  {
    if n > 0 {
      BitsRecompose(k / 2, n - 1);
      assert BitsOf(k, n)[1..] == BitsOf(k / 2, n - 1);
    }
  }

  lemma SameBitsSameKey(a: U256, b: U256)
    requires forall i :: 0 <= i < KEY_BITS ==> Bit(a, i) == Bit(b, i)
    ensures a == b
  {
    BitsRecompose(a, KEY_BITS);
    BitsRecompose(b, KEY_BITS);
    assert BitsOf(a, KEY_BITS) == BitsOf(b, KEY_BITS);
  }

  /** No two keys have the same 256 bits. */
  lemma DistinctKeysDiffer(a: U256, b: U256)
    requires a != b
    ensures exists i :: 0 <= i < KEY_BITS && Bit(a, i) != Bit(b, i)
  {
    if forall i :: 0 <= i < KEY_BITS ==> Bit(a, i) == Bit(b, i) {
      SameBitsSameKey(a, b);
    }
  }

  method SplitBits(key: U256) returns (bits: seq<bool>)
    ensures |bits| == KEY_BITS
    ensures forall i :: 0 <= i < KEY_BITS ==> bits[i] == Bit(key, i)
    ensures FromBits(bits) == key
  {
    bits := [];
    var k: nat := key;
    for n := 0 to KEY_BITS
      invariant |bits| == n
      invariant forall i :: 0 <= i < n ==> bits[i] == Bit(key, i)
      invariant forall j: nat :: Bit(k, j) == Bit(key, n + j)
    {
      assert Bit(k, 0) == Bit(key, n + 0);
      bits := bits + [k % 2 == 1];
      forall j: nat ensures Bit(k / 2, j) == Bit(key, n + 1 + j) {
        assert Bit(k, j + 1) == Bit(key, n + (j + 1));
      }
      k := k / 2;
    }
    BitsRecompose(key, KEY_BITS);
    assert bits == BitsOf(key, KEY_BITS);
  }
}
