/*
 * The bucket hash of hashtable.c: Austin Appleby's MurmurHash3_x86_32 with
 * seed 42, reduced modulo the number of buckets.  All arithmetic is on
 * 32-bit words (bv32), so the C wrap-around of uint32_t is exact here.
 */
module Murmur {

  const C1: bv32 := 0xcc9e2d51
  const C2: bv32 := 0x1b873593
  /** The seed hash_table_do_hash passes to MurmurHash3_x86_32. */
  const Seed: bv32 := 42

  /** rotl32: rotate a word left by r bits (the source only uses r = 13 and r = 15). */
  function Rotl32(x: bv32, r: bv32): bv32
    requires 0 < r < 32
  {
    (x << r) | (x >> (32 - r))
  }

  /** The two rotations the hash uses lose no bit: rotating back restores the word. */
  lemma Rotl32Inverse(x: bv32)
    ensures Rotl32(Rotl32(x, 13), 19) == x
    ensures Rotl32(Rotl32(x, 15), 17) == x
  {
  }

  /** fmix32: the finalisation avalanche. */
  function Fmix32(h: bv32): bv32
  {
    var h1 := h ^ (h >> 16);
    var h2 := h1 * 0x85ebca6b;
    var h3 := h2 ^ (h2 >> 13);
    var h4 := h3 * 0xc2b2ae35;
    h4 ^ (h4 >> 16)
  }

  /** getblock on x86: the i-th 4-byte block of data, read little-endian. */
  function GetBlock(data: seq<bv8>, i: nat): bv32
    requires 4 * i + 4 <= |data|
  {
    (data[4 * i] as bv32)
    | ((data[4 * i + 1] as bv32) << 8)
    | ((data[4 * i + 2] as bv32) << 16)
    | ((data[4 * i + 3] as bv32) << 24)
  }

  /** The per-block key scramble: k1 *= c1; k1 = ROTL32(k1,15); k1 *= c2. */
  function ScrambleK(k: bv32): bv32
  {
    Rotl32(k * C1, 15) * C2
  }

  /** One round of the body loop on h1. */
  function MixBlock(h: bv32, k: bv32): bv32
  {
    Rotl32(h ^ ScrambleK(k), 13) * 5 + 0xe6546b64
  }

  /** h1 after the body loop has consumed blocks 0 .. n-1 (in that order). */
  function Body(h: bv32, data: seq<bv8>, n: nat): bv32
    requires 4 * n <= |data|
  {
    if n == 0 then h else MixBlock(Body(h, data, n - 1), GetBlock(data, n - 1))
  }

  /** The tail switch: fold the last len & 3 bytes into h1 (no change when there are none). */
  function Tail(h: bv32, tail: seq<bv8>): bv32
    requires |tail| < 4
  {
    if |tail| == 0 then h
    else
      var k2 := if |tail| == 3 then (tail[2] as bv32) << 16 else 0;
      var k1 := if |tail| >= 2 then k2 ^ ((tail[1] as bv32) << 8) else k2;
      var k0 := k1 ^ (tail[0] as bv32);
      h ^ ScrambleK(k0)
  }

  /** The length of data as the 32-bit word `h1 ^= len` folds in: counted modulo 2^32. */
  function LengthWord(data: seq<bv8>): bv32
  {
    if data == [] then 0 else LengthWord(data[1..]) + 1
  }

  /** MurmurHash3_x86_32(key, len, seed). */
  function Murmur3(data: seq<bv8>, seed: bv32): bv32
  {
    var nblocks := |data| / 4;
    var h := Body(seed, data, nblocks);
    var h' := Tail(h, data[4 * nblocks..]);
    Fmix32(h' ^ LengthWord(data))
  }

  /** The 32-bit hash hash_table_do_hash computes for a key. */
  function KeyHash(key: seq<bv8>): bv32
  {
    Murmur3(key, Seed)
  }

  /** hash_table_do_hash: the bucket index of a key in a table of maxKey buckets. */
  function HashIndex(key: seq<bv8>, maxKey: nat): (h: nat)
    requires maxKey > 0
    ensures h < maxKey
  {
    (KeyHash(key) as int) % maxKey
  }

  /** Published MurmurHash3_x86_32 answers for the empty input: the model computes the
      standard algorithm. */
  lemma EmptyKnownAnswers()
    ensures Murmur3([], 0) == 0
    ensures Murmur3([], 1) == 0x514e28b7
  {
    assert Fmix32(1) == 0x514e28b7;
  }

  /** The published answer for the four bytes "test" with seed 0 (one full block, no tail). */
  lemma TestKnownAnswer()
    ensures Murmur3([0x74, 0x65, 0x73, 0x74], 0) == 0xba6bd213
  {
    var test: seq<bv8> := [0x74, 0x65, 0x73, 0x74];
    TestBlock();
    assert Body(0, test, 1) == 0x7985975b by {
      assert Body(0, test, 0) == 0;
      TestMix();
    }
    assert Tail(0x7985975b, test[4..]) == 0x7985975b;
    assert LengthWord(test) == 4;
    TestFinal();
  }

  lemma TestBlock()
    ensures GetBlock([0x74, 0x65, 0x73, 0x74], 0) == 0x74736574
  {
  }

  lemma TestMix()
    ensures MixBlock(0, 0x74736574) == 0x7985975b
  {
    assert ScrambleK(0x74736574) == 0x465f51e8;
  }

  lemma TestFinal()
    ensures Fmix32(0x7985975b ^ 4) == 0xba6bd213
  {
    assert 0x7985975b ^ 4 == 0x7985975f as bv32;
  }

  /** With the table's seed, the one-byte key "A" lands in bucket 23 of the initial 128. */
  lemma KeyABucket()
    ensures Murmur3([0x41], Seed) == 0x1e754817
    ensures HashIndex([0x41], 128) == 23
  {
    var a: seq<bv8> := [0x41];
    assert Body(Seed, a, 0) == 42;
    assert ScrambleK(0x41) == 0x4bb9bd7c;
    assert Tail(42, a[0..]) == 0x4bb9bd56;
    assert LengthWord(a) == 1;
    assert Fmix32(0x4bb9bd57) == 0x1e754817;
    assert Murmur3(a, Seed) == 0x1e754817;
    assert 0x1e754817 as int % 128 == 23;
  }
}
