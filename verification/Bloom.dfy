/** The bit vector of the Bloom filter. */
module Bloom {
  import opened Bits

  function BitOf(byte: bv8, k: nat): bool
    requires k < 8
  {
    byte & ((1 as bv8) << k) != 0
  }

  function BitTest(bv: seq<bv8>, idx: nat): bool
    requires idx / 8 < |bv|
  {
    BitOf(bv[idx / 8], idx % 8)
  }

  function WithBit(byte: bv8, k: nat): bv8
    requires k < 8
  {
    byte | ((1 as bv8) << k)
  }

  lemma WithBitTest(byte: bv8, k: nat, j: nat)
    requires k < 8 && j < 8
    ensures BitOf(WithBit(byte, k), j) <==> j == k || BitOf(byte, j)
  {
  }

  lemma PowerOf(k: nat)
    requires k < 8
    ensures (1 as bv8) << k == [1, 2, 4, 8, 16, 32, 64, 128][k]
  {
  }

  /** Bit k of a byte is worth 2^k, and index i of the filter is bit i % 8 of byte i / 8. */
  lemma BitPlace(bv: seq<bv8>, idx: nat)
    requires idx / 8 < |bv|
    ensures WithBit(0, idx % 8) == [1, 2, 4, 8, 16, 32, 64, 128][idx % 8]
    ensures BitTest(bv, idx) <==> bv[idx / 8] & [1, 2, 4, 8, 16, 32, 64, 128][idx % 8] != 0
  {
    PowerOf(idx % 8);
  }

  /** Setting a bit sets that bit and no other. */
  lemma SetThenTest(bv: seq<bv8>, idx: nat, i: nat)
    requires idx / 8 < |bv| && i / 8 < |bv|
    ensures BitTest(bv[idx / 8 := WithBit(bv[idx / 8], idx % 8)], i) <==> i == idx || BitTest(bv, i)
  {
    if i / 8 == idx / 8 {
      WithBitTest(bv[idx / 8], idx % 8, i % 8);
    }
  }

  /** HASH_BLOOM_BITSET. */
  method BitSet(bv: array<bv8>, idx: nat)
    requires idx / 8 < bv.Length
    modifies bv
    ensures forall i :: 0 <= i < 8 * bv.Length ==> (BitTest(bv[..], i) <==> i == idx || BitTest(old(bv[..]), i))
  {
    ghost var was := bv[..];
    bv[idx / 8] := WithBit(bv[idx / 8], idx % 8);
    assert bv[..] == was[idx / 8 := WithBit(was[idx / 8], idx % 8)];
    forall i | 0 <= i < 8 * bv.Length ensures BitTest(bv[..], i) <==> i == idx || BitTest(was, i) {
      SetThenTest(was, idx, i);
    }
  }

  /** HASH_BLOOM_BYTELEN. */
  function BloomByteLen(nbits: nat): nat {
    Pow2(nbits) / 8 + if Pow2(nbits) % 8 != 0 then 1 else 0
  }

  lemma EmptyBits(bv: array<bv8>, nbits: nat)
    requires bv.Length == BloomByteLen(nbits) && forall i :: 0 <= i < bv.Length ==> bv[i] == 0
    ensures 8 * bv.Length >= Pow2(nbits)
    ensures forall i :: 0 <= i < 8 * bv.Length ==> !BitTest(bv[..], i)
  {
  }
}
