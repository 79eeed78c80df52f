/**
 * Bit-level facts behind the branch-free population count `bitsSet` of the
 * utility file. The reference count adds the bits of a word one at a time;
 * the SWAR (SIMD-within-a-register) steps are related to it byte by byte.
 * Counts are integers, so regrouping a sum is linear arithmetic; only the
 * per-byte facts are bit-vector reasoning.
 */
module Swar {
  /** 1 when bit i of x is set, else 0. */
  function Bit(x: bv64, i: nat): int
    requires i < 64
  {
    if (x >> i) & 1 == 1 then 1 else 0
  }

  /** Number of set bits among the n lowest bits of x: the reference population count. */
  function BitsIn(x: bv64, n: nat): int
    requires n <= 64
  {
    if n == 0 then 0 else BitsIn(x, n - 1) + Bit(x, n - 1)
  }

  /** The byte of x that starts at bit s. */
  function Bt(x: bv64, s: bv64): bv8
    requires s < 64
  {
    ((x >> s) & 0xff) as bv8
  }

  /** 1 when bit i of the byte b is set, else 0. */
  function ByteBit(b: bv8, i: bv8): int
    requires i < 8
  {
    if (b >> i) & 1 == 1 then 1 else 0
  }

  /** Number of set bits of one byte. */
  function Pop8(b: bv8): int
  {
    ByteBit(b, 0) + ByteBit(b, 1) + ByteBit(b, 2) + ByteBit(b, 3)
      + ByteBit(b, 4) + ByteBit(b, 5) + ByteBit(b, 6) + ByteBit(b, 7)
  }

  // The three SWAR steps on a whole word, and the same steps on a single byte.
  function S1(x: bv64): bv64 { x - ((x >> 1) & 0x5555555555555555) }
  function S2(x: bv64): bv64 { (x & 0x3333333333333333) + ((x >> 2) & 0x3333333333333333) }
  function S3(x: bv64): bv64 { (x + (x >> 4)) & 0x0f0f0f0f0f0f0f0f }
  function T1(b: bv8): bv8 { b - ((b >> 1) & 0x55) }
  function T2(b: bv8): bv8 { (b & 0x33) + ((b >> 2) & 0x33) }
  function T3(b: bv8): bv8 { (b + (b >> 4)) & 0x0f }

  /** On one byte the three steps compute its population count. */
  lemma BytePop(b: bv8)
    ensures T3(T2(T1(b))) as int == Pop8(b)
  {}

  lemma ByteBits0(x: bv64)
    ensures BitsIn(x, 8) == BitsIn(x, 0) + Pop8(Bt(x, 0))
  {
    assert Bit(x, 0) == ByteBit(Bt(x, 0), 0);
    assert Bit(x, 1) == ByteBit(Bt(x, 0), 1);
    assert Bit(x, 2) == ByteBit(Bt(x, 0), 2);
    assert Bit(x, 3) == ByteBit(Bt(x, 0), 3);
    assert Bit(x, 4) == ByteBit(Bt(x, 0), 4);
    assert Bit(x, 5) == ByteBit(Bt(x, 0), 5);
    assert Bit(x, 6) == ByteBit(Bt(x, 0), 6);
    assert Bit(x, 7) == ByteBit(Bt(x, 0), 7);
    assert BitsIn(x, 1) == BitsIn(x, 0) + Bit(x, 0);
    assert BitsIn(x, 2) == BitsIn(x, 1) + Bit(x, 1);
    assert BitsIn(x, 3) == BitsIn(x, 2) + Bit(x, 2);
    assert BitsIn(x, 4) == BitsIn(x, 3) + Bit(x, 3);
    assert BitsIn(x, 5) == BitsIn(x, 4) + Bit(x, 4);
    assert BitsIn(x, 6) == BitsIn(x, 5) + Bit(x, 5);
    assert BitsIn(x, 7) == BitsIn(x, 6) + Bit(x, 6);
    assert BitsIn(x, 8) == BitsIn(x, 7) + Bit(x, 7);
  }

  lemma ByteBits1(x: bv64)
    ensures BitsIn(x, 16) == BitsIn(x, 8) + Pop8(Bt(x, 8))
  {
    assert Bit(x, 8) == ByteBit(Bt(x, 8), 0);
    assert Bit(x, 9) == ByteBit(Bt(x, 8), 1);
    assert Bit(x, 10) == ByteBit(Bt(x, 8), 2);
    assert Bit(x, 11) == ByteBit(Bt(x, 8), 3);
    assert Bit(x, 12) == ByteBit(Bt(x, 8), 4);
    assert Bit(x, 13) == ByteBit(Bt(x, 8), 5);
    assert Bit(x, 14) == ByteBit(Bt(x, 8), 6);
    assert Bit(x, 15) == ByteBit(Bt(x, 8), 7);
    assert BitsIn(x, 9) == BitsIn(x, 8) + Bit(x, 8);
    assert BitsIn(x, 10) == BitsIn(x, 9) + Bit(x, 9);
    assert BitsIn(x, 11) == BitsIn(x, 10) + Bit(x, 10);
    assert BitsIn(x, 12) == BitsIn(x, 11) + Bit(x, 11);
    assert BitsIn(x, 13) == BitsIn(x, 12) + Bit(x, 12);
    assert BitsIn(x, 14) == BitsIn(x, 13) + Bit(x, 13);
    assert BitsIn(x, 15) == BitsIn(x, 14) + Bit(x, 14);
    assert BitsIn(x, 16) == BitsIn(x, 15) + Bit(x, 15);
  }

  lemma ByteBits2(x: bv64)
    ensures BitsIn(x, 24) == BitsIn(x, 16) + Pop8(Bt(x, 16))
  {
    assert Bit(x, 16) == ByteBit(Bt(x, 16), 0);
    assert Bit(x, 17) == ByteBit(Bt(x, 16), 1);
    assert Bit(x, 18) == ByteBit(Bt(x, 16), 2);
    assert Bit(x, 19) == ByteBit(Bt(x, 16), 3);
    assert Bit(x, 20) == ByteBit(Bt(x, 16), 4);
    assert Bit(x, 21) == ByteBit(Bt(x, 16), 5);
    assert Bit(x, 22) == ByteBit(Bt(x, 16), 6);
    assert Bit(x, 23) == ByteBit(Bt(x, 16), 7);
    assert BitsIn(x, 17) == BitsIn(x, 16) + Bit(x, 16);
    assert BitsIn(x, 18) == BitsIn(x, 17) + Bit(x, 17);
    assert BitsIn(x, 19) == BitsIn(x, 18) + Bit(x, 18);
    assert BitsIn(x, 20) == BitsIn(x, 19) + Bit(x, 19);
    assert BitsIn(x, 21) == BitsIn(x, 20) + Bit(x, 20);
    assert BitsIn(x, 22) == BitsIn(x, 21) + Bit(x, 21);
    assert BitsIn(x, 23) == BitsIn(x, 22) + Bit(x, 22);
    assert BitsIn(x, 24) == BitsIn(x, 23) + Bit(x, 23);
  }

  lemma ByteBits3(x: bv64)
    ensures BitsIn(x, 32) == BitsIn(x, 24) + Pop8(Bt(x, 24))
  {
    assert Bit(x, 24) == ByteBit(Bt(x, 24), 0);
    assert Bit(x, 25) == ByteBit(Bt(x, 24), 1);
    assert Bit(x, 26) == ByteBit(Bt(x, 24), 2);
    assert Bit(x, 27) == ByteBit(Bt(x, 24), 3);
    assert Bit(x, 28) == ByteBit(Bt(x, 24), 4);
    assert Bit(x, 29) == ByteBit(Bt(x, 24), 5);
    assert Bit(x, 30) == ByteBit(Bt(x, 24), 6);
    assert Bit(x, 31) == ByteBit(Bt(x, 24), 7);
    assert BitsIn(x, 25) == BitsIn(x, 24) + Bit(x, 24);
    assert BitsIn(x, 26) == BitsIn(x, 25) + Bit(x, 25);
    assert BitsIn(x, 27) == BitsIn(x, 26) + Bit(x, 26);
    assert BitsIn(x, 28) == BitsIn(x, 27) + Bit(x, 27);
    assert BitsIn(x, 29) == BitsIn(x, 28) + Bit(x, 28);
    assert BitsIn(x, 30) == BitsIn(x, 29) + Bit(x, 29);
    assert BitsIn(x, 31) == BitsIn(x, 30) + Bit(x, 30);
    assert BitsIn(x, 32) == BitsIn(x, 31) + Bit(x, 31);
  }

  lemma ByteBits4(x: bv64)
    ensures BitsIn(x, 40) == BitsIn(x, 32) + Pop8(Bt(x, 32))
  {
    assert Bit(x, 32) == ByteBit(Bt(x, 32), 0);
    assert Bit(x, 33) == ByteBit(Bt(x, 32), 1);
    assert Bit(x, 34) == ByteBit(Bt(x, 32), 2);
    assert Bit(x, 35) == ByteBit(Bt(x, 32), 3);
    assert Bit(x, 36) == ByteBit(Bt(x, 32), 4);
    assert Bit(x, 37) == ByteBit(Bt(x, 32), 5);
    assert Bit(x, 38) == ByteBit(Bt(x, 32), 6);
    assert Bit(x, 39) == ByteBit(Bt(x, 32), 7);
    assert BitsIn(x, 33) == BitsIn(x, 32) + Bit(x, 32);
    assert BitsIn(x, 34) == BitsIn(x, 33) + Bit(x, 33);
    assert BitsIn(x, 35) == BitsIn(x, 34) + Bit(x, 34);
    assert BitsIn(x, 36) == BitsIn(x, 35) + Bit(x, 35);
    assert BitsIn(x, 37) == BitsIn(x, 36) + Bit(x, 36);
    assert BitsIn(x, 38) == BitsIn(x, 37) + Bit(x, 37);
    assert BitsIn(x, 39) == BitsIn(x, 38) + Bit(x, 38);
    assert BitsIn(x, 40) == BitsIn(x, 39) + Bit(x, 39);
  }

  lemma ByteBits5(x: bv64)
    ensures BitsIn(x, 48) == BitsIn(x, 40) + Pop8(Bt(x, 40))
  {
    assert Bit(x, 40) == ByteBit(Bt(x, 40), 0);
    assert Bit(x, 41) == ByteBit(Bt(x, 40), 1);
    assert Bit(x, 42) == ByteBit(Bt(x, 40), 2);
    assert Bit(x, 43) == ByteBit(Bt(x, 40), 3);
    assert Bit(x, 44) == ByteBit(Bt(x, 40), 4);
    assert Bit(x, 45) == ByteBit(Bt(x, 40), 5);
    assert Bit(x, 46) == ByteBit(Bt(x, 40), 6);
    assert Bit(x, 47) == ByteBit(Bt(x, 40), 7);
    assert BitsIn(x, 41) == BitsIn(x, 40) + Bit(x, 40);
    assert BitsIn(x, 42) == BitsIn(x, 41) + Bit(x, 41);
    assert BitsIn(x, 43) == BitsIn(x, 42) + Bit(x, 42);
    assert BitsIn(x, 44) == BitsIn(x, 43) + Bit(x, 43);
    assert BitsIn(x, 45) == BitsIn(x, 44) + Bit(x, 44);
    assert BitsIn(x, 46) == BitsIn(x, 45) + Bit(x, 45);
    assert BitsIn(x, 47) == BitsIn(x, 46) + Bit(x, 46);
    assert BitsIn(x, 48) == BitsIn(x, 47) + Bit(x, 47);
  }

  lemma ByteBits6(x: bv64)
    ensures BitsIn(x, 56) == BitsIn(x, 48) + Pop8(Bt(x, 48))
  {
    assert Bit(x, 48) == ByteBit(Bt(x, 48), 0);
    assert Bit(x, 49) == ByteBit(Bt(x, 48), 1);
    assert Bit(x, 50) == ByteBit(Bt(x, 48), 2);
    assert Bit(x, 51) == ByteBit(Bt(x, 48), 3);
    assert Bit(x, 52) == ByteBit(Bt(x, 48), 4);
    assert Bit(x, 53) == ByteBit(Bt(x, 48), 5);
    assert Bit(x, 54) == ByteBit(Bt(x, 48), 6);
    assert Bit(x, 55) == ByteBit(Bt(x, 48), 7);
    assert BitsIn(x, 49) == BitsIn(x, 48) + Bit(x, 48);
    assert BitsIn(x, 50) == BitsIn(x, 49) + Bit(x, 49);
    assert BitsIn(x, 51) == BitsIn(x, 50) + Bit(x, 50);
    assert BitsIn(x, 52) == BitsIn(x, 51) + Bit(x, 51);
    assert BitsIn(x, 53) == BitsIn(x, 52) + Bit(x, 52);
    assert BitsIn(x, 54) == BitsIn(x, 53) + Bit(x, 53);
    assert BitsIn(x, 55) == BitsIn(x, 54) + Bit(x, 54);
    assert BitsIn(x, 56) == BitsIn(x, 55) + Bit(x, 55);
  }

  lemma ByteBits7(x: bv64)
    ensures BitsIn(x, 64) == BitsIn(x, 56) + Pop8(Bt(x, 56))
  {
    assert Bit(x, 56) == ByteBit(Bt(x, 56), 0);
    assert Bit(x, 57) == ByteBit(Bt(x, 56), 1);
    assert Bit(x, 58) == ByteBit(Bt(x, 56), 2);
    assert Bit(x, 59) == ByteBit(Bt(x, 56), 3);
    assert Bit(x, 60) == ByteBit(Bt(x, 56), 4);
    assert Bit(x, 61) == ByteBit(Bt(x, 56), 5);
    assert Bit(x, 62) == ByteBit(Bt(x, 56), 6);
    assert Bit(x, 63) == ByteBit(Bt(x, 56), 7);
    assert BitsIn(x, 57) == BitsIn(x, 56) + Bit(x, 56);
    assert BitsIn(x, 58) == BitsIn(x, 57) + Bit(x, 57);
    assert BitsIn(x, 59) == BitsIn(x, 58) + Bit(x, 58);
    assert BitsIn(x, 60) == BitsIn(x, 59) + Bit(x, 59);
    assert BitsIn(x, 61) == BitsIn(x, 60) + Bit(x, 60);
    assert BitsIn(x, 62) == BitsIn(x, 61) + Bit(x, 61);
    assert BitsIn(x, 63) == BitsIn(x, 62) + Bit(x, 62);
    assert BitsIn(x, 64) == BitsIn(x, 63) + Bit(x, 63);
  }

  /** Every nibble after the first two steps holds at most 4, so the third step cannot carry. */
  lemma NibbleBound(x: bv64)
    ensures S2(S1(x)) & 0x8888888888888888 == 0
  {}

  /** After the third step every byte holds at most 15. */
  lemma ByteMask(x: bv64)
    ensures S3(x) & 0xf0f0f0f0f0f0f0f0 == 0
  {}

  lemma Stage0(x: bv64, y: bv64)
    requires y & 0x8888888888888888 == 0
    ensures Bt(S1(x), 0) == T1(Bt(x, 0)) && Bt(S2(x), 0) == T2(Bt(x, 0))
    ensures Bt(S3(y), 0) == T3(Bt(y, 0))
  {}

  lemma Stage1(x: bv64, y: bv64)
    requires y & 0x8888888888888888 == 0
    ensures Bt(S1(x), 8) == T1(Bt(x, 8)) && Bt(S2(x), 8) == T2(Bt(x, 8))
    ensures Bt(S3(y), 8) == T3(Bt(y, 8))
  {}

  lemma Stage2(x: bv64, y: bv64)
    requires y & 0x8888888888888888 == 0
    ensures Bt(S1(x), 16) == T1(Bt(x, 16)) && Bt(S2(x), 16) == T2(Bt(x, 16))
    ensures Bt(S3(y), 16) == T3(Bt(y, 16))
  {}

  lemma Stage3(x: bv64, y: bv64)
    requires y & 0x8888888888888888 == 0
    ensures Bt(S1(x), 24) == T1(Bt(x, 24)) && Bt(S2(x), 24) == T2(Bt(x, 24))
    ensures Bt(S3(y), 24) == T3(Bt(y, 24))
  {}

  lemma Stage4(x: bv64, y: bv64)
    requires y & 0x8888888888888888 == 0
    ensures Bt(S1(x), 32) == T1(Bt(x, 32)) && Bt(S2(x), 32) == T2(Bt(x, 32))
    ensures Bt(S3(y), 32) == T3(Bt(y, 32))
  {}

  lemma Stage5(x: bv64, y: bv64)
    requires y & 0x8888888888888888 == 0
    ensures Bt(S1(x), 40) == T1(Bt(x, 40)) && Bt(S2(x), 40) == T2(Bt(x, 40))
    ensures Bt(S3(y), 40) == T3(Bt(y, 40))
  {}

  lemma Stage6(x: bv64, y: bv64)
    requires y & 0x8888888888888888 == 0
    ensures Bt(S1(x), 48) == T1(Bt(x, 48)) && Bt(S2(x), 48) == T2(Bt(x, 48))
    ensures Bt(S3(y), 48) == T3(Bt(y, 48))
  {}

  lemma Stage7(x: bv64, y: bv64)
    requires y & 0x8888888888888888 == 0
    ensures Bt(S1(x), 56) == T1(Bt(x, 56)) && Bt(S2(x), 56) == T2(Bt(x, 56))
    ensures Bt(S3(y), 56) == T3(Bt(y, 56))
  {}

  // The multiplication by 0x0101010101010101 adds shifted copies of the word; with every
  // byte at most 15 no byte overflows, so the partial products hold sums of bytes.

  /** After multiplying by 0x0101 every odd byte holds the sum of a pair of bytes. */
  lemma Fold16(y: bv64)
    requires y & 0xf0f0f0f0f0f0f0f0 == 0
    ensures Bt(y * 0x101, 8) as int == Bt(y, 8) as int + Bt(y, 0) as int
    ensures Bt(y * 0x101, 24) as int == Bt(y, 24) as int + Bt(y, 16) as int
  {}

  lemma Fold16High(y: bv64)
    requires y & 0xf0f0f0f0f0f0f0f0 == 0
    ensures Bt(y * 0x101, 40) as int == Bt(y, 40) as int + Bt(y, 32) as int
    ensures Bt(y * 0x101, 56) as int == Bt(y, 56) as int + Bt(y, 48) as int
  {}

  /** After multiplying by 0x01010101, bytes 3 and 7 hold the sums of the two halves' pairs. */
  lemma Fold32(y: bv64)
    requires y & 0xf0f0f0f0f0f0f0f0 == 0
    ensures Bt(y * 0x1010101, 24) as int == Bt(y * 0x101, 24) as int + Bt(y * 0x101, 8) as int
  {}

  lemma Fold32High(y: bv64)
    requires y & 0xf0f0f0f0f0f0f0f0 == 0
    ensures Bt(y * 0x1010101, 56) as int == Bt(y * 0x101, 56) as int + Bt(y * 0x101, 40) as int
  {}

  /** Bytes 3 and 7 of y * 0x01010101 hold the sums of the low and of the high four bytes of y. */
  lemma HalfFold(y: bv64)
    requires y & 0xf0f0f0f0f0f0f0f0 == 0
    ensures Bt(y * 0x1010101, 24) as int == Bt(y, 0) as int + Bt(y, 8) as int + Bt(y, 16) as int + Bt(y, 24) as int
    ensures Bt(y * 0x1010101, 56) as int == Bt(y, 32) as int + Bt(y, 40) as int + Bt(y, 48) as int + Bt(y, 56) as int
  {
    Fold16(y);
    Fold16High(y);
    Fold32(y);
    Fold32High(y);
  }

  lemma TopByte(w: bv64)
    ensures (w >> 56) as int == Bt(w, 56) as int
  {}

  /** Each byte of the word after the three steps holds the population count of the same byte of x. */
  lemma SwarBytes(x: bv64)
    ensures Bt(S3(S2(S1(x))), 0) as int == Pop8(Bt(x, 0))
    ensures Bt(S3(S2(S1(x))), 8) as int == Pop8(Bt(x, 8))
    ensures Bt(S3(S2(S1(x))), 16) as int == Pop8(Bt(x, 16))
    ensures Bt(S3(S2(S1(x))), 24) as int == Pop8(Bt(x, 24))
    ensures Bt(S3(S2(S1(x))), 32) as int == Pop8(Bt(x, 32))
    ensures Bt(S3(S2(S1(x))), 40) as int == Pop8(Bt(x, 40))
    ensures Bt(S3(S2(S1(x))), 48) as int == Pop8(Bt(x, 48))
    ensures Bt(S3(S2(S1(x))), 56) as int == Pop8(Bt(x, 56))
  {
    var z := S2(S1(x));
    NibbleBound(x);
    Stage0(x, z); Stage0(S1(x), z); BytePop(Bt(x, 0));
    Stage1(x, z); Stage1(S1(x), z); BytePop(Bt(x, 8));
    Stage2(x, z); Stage2(S1(x), z); BytePop(Bt(x, 16));
    Stage3(x, z); Stage3(S1(x), z); BytePop(Bt(x, 24));
    Stage4(x, z); Stage4(S1(x), z); BytePop(Bt(x, 32));
    Stage5(x, z); Stage5(S1(x), z); BytePop(Bt(x, 40));
    Stage6(x, z); Stage6(S1(x), z); BytePop(Bt(x, 48));
    Stage7(x, z); Stage7(S1(x), z); BytePop(Bt(x, 56));
  }

  /** The reference count is the sum of the byte counts. */
  lemma BitsByBytes(x: bv64)
    ensures BitsIn(x, 64) == Pop8(Bt(x, 0)) + Pop8(Bt(x, 8)) + Pop8(Bt(x, 16)) + Pop8(Bt(x, 24))
      + Pop8(Bt(x, 32)) + Pop8(Bt(x, 40)) + Pop8(Bt(x, 48)) + Pop8(Bt(x, 56))
  {
    ByteBits0(x); ByteBits1(x); ByteBits2(x); ByteBits3(x);
    ByteBits4(x); ByteBits5(x); ByteBits6(x); ByteBits7(x);
  }

  /** y · 0x01010101: the first two folds of the final multiplication. */
  function Spread(y: bv64): bv64
  {
    y * 0x1010101
  }

  /** 0x0101010101010101 = 0x01010101 · 0x100000001, so the final multiplication can be taken in two factors. */
  lemma MulFactors(y: bv64)
    ensures Spread(y) * 0x100000001 == y * 0x0101010101010101
  {
    assert Spread(y) * 0x100000001 == (y * 0x1010101) * 0x100000001;
  }

  /** Bytes of at most 15 stay below 128 after multiplying by 0x01010101 (each is a sum of at most four). */
  lemma SmallBytes(y: bv64)
    requires y & 0xf0f0f0f0f0f0f0f0 == 0
    ensures Spread(y) & 0x8080808080808080 == 0
  {}

  /** Bytes 3 and 7 of y · 0x01010101 hold the sums of the low and of the high four bytes of y. */
  lemma HalfSums(y: bv64)
    requires y & 0xf0f0f0f0f0f0f0f0 == 0
    ensures Bt(Spread(y), 24) as int == Bt(y, 0) as int + Bt(y, 8) as int + Bt(y, 16) as int + Bt(y, 24) as int
    ensures Bt(Spread(y), 56) as int == Bt(y, 32) as int + Bt(y, 40) as int + Bt(y, 48) as int + Bt(y, 56) as int
  {
    HalfFold(y);
  }

  /** Multiplying by 0x100000001 adds the word to itself shifted by 32, so the top byte gets byte 3 plus byte 7. */
  lemma FoldTop(w: bv64)
    requires w & 0x8080808080808080 == 0
    ensures Bt(w * 0x100000001, 56) == Bt(w, 24) + Bt(w, 56)
    ensures Bt(w, 24) < 128 && Bt(w, 56) < 128
  {}

  lemma AddSmall(a: bv8, b: bv8)
    requires a < 128 && b < 128
    ensures (a + b) as int == a as int + b as int
  {}

  lemma AddEq(t: bv8, a: bv8, b: bv8)
    requires t == a + b && a < 128 && b < 128
    ensures t as int == a as int + b as int
  {
    AddSmall(a, b);
  }

  /** The fold of FoldTop as a sum of integers. */
  lemma FoldTopSum(w: bv64)
    requires w & 0x8080808080808080 == 0
    ensures Bt(w * 0x100000001, 56) as int == Bt(w, 24) as int + Bt(w, 56) as int
  {
    FoldTop(w);
    AddEq(Bt(w * 0x100000001, 56), Bt(w, 24), Bt(w, 56));
  }

  /** After the three steps, the word spread by 0x01010101 has bytes below 128. */
  lemma SpreadSmall(x: bv64)
    ensures Spread(S3(S2(S1(x)))) & 0x8080808080808080 == 0
  {
    ByteMask(S2(S1(x)));
    SmallBytes(S3(S2(S1(x))));
  }

  /** The top byte of the final product is the sum of the two half counts. */
  lemma TopSum(x: bv64)
    ensures Bt(Spread(S3(S2(S1(x)))) * 0x100000001, 56) as int
      == Bt(Spread(S3(S2(S1(x)))), 24) as int + Bt(Spread(S3(S2(S1(x)))), 56) as int
  {
    SpreadSmall(x);
    FoldTopSum(Spread(S3(S2(S1(x)))));
  }

  /** The reference count of the low half, and of the high half, as sums of byte counts. */
  lemma Halves(x: bv64)
    ensures BitsIn(x, 32) == Pop8(Bt(x, 0)) + Pop8(Bt(x, 8)) + Pop8(Bt(x, 16)) + Pop8(Bt(x, 24))
    ensures BitsIn(x, 64) - BitsIn(x, 32) == Pop8(Bt(x, 32)) + Pop8(Bt(x, 40)) + Pop8(Bt(x, 48)) + Pop8(Bt(x, 56))
  {
    ByteBits0(x); ByteBits1(x); ByteBits2(x); ByteBits3(x);
    ByteBits4(x); ByteBits5(x); ByteBits6(x); ByteBits7(x);
  }

  /** Bytes 3 and 7 of the spread word count the set bits of the low and of the high half of x. */
  lemma HalfCounts(x: bv64)
    ensures Bt(Spread(S3(S2(S1(x)))), 24) as int == BitsIn(x, 32)
    ensures Bt(Spread(S3(S2(S1(x)))), 56) as int == BitsIn(x, 64) - BitsIn(x, 32)
  {
    SwarBytes(x);
    ByteMask(S2(S1(x)));
    Halves(x);
    HalfSums(S3(S2(S1(x))));
  }

  /** The top byte of the final product is the population count of x. */
  lemma TopCount(x: bv64)
    ensures Bt(Spread(S3(S2(S1(x)))) * 0x100000001, 56) as int == BitsIn(x, 64)
  {
    TopSum(x);
    HalfCounts(x);
  }

  /**
   * Masking with 1 << bit tests the same bit as shifting right by bit. The
   * proof splits on the top two bits of the shift amount, and each quarter
   * on the rest, so that every case shifts by a constant.
   */
  lemma MaskBit(num: bv64, bit: bv64)
    requires bit < 64
    ensures (num & (1 << bit)) != 0 <==> (num >> bit) & 1 == 1
  {
    if bit & 32 == 0 {
      if bit & 16 == 0 { MaskQuarter0(num, bit); } else { MaskQuarter1(num, bit); }
    } else {
      if bit & 16 == 0 { MaskQuarter2(num, bit); } else { MaskQuarter3(num, bit); }
    }
  }

  /** MaskBit for the shift amounts 0 to 15. */
  lemma MaskQuarter0(num: bv64, bit: bv64)
    requires bit < 64 && bit & 48 == 0
    ensures (num & (1 << bit)) != 0 <==> (num >> bit) & 1 == 1
  {
    if bit & 8 == 0 {
      if bit & 4 == 0 {
        if bit & 2 == 0 {
          if bit & 1 == 0 { } else { }
        } else {
          if bit & 1 == 0 { } else { }
        }
      } else {
        if bit & 2 == 0 {
          if bit & 1 == 0 { } else { }
        } else {
          if bit & 1 == 0 { } else { }
        }
      }
    } else {
      if bit & 4 == 0 {
        if bit & 2 == 0 {
          if bit & 1 == 0 { } else { }
        } else {
          if bit & 1 == 0 { } else { }
        }
      } else {
        if bit & 2 == 0 {
          if bit & 1 == 0 { } else { }
        } else {
          if bit & 1 == 0 { } else { }
        }
      }
    }
  }

  /** MaskBit for the shift amounts 16 to 31. */
  lemma MaskQuarter1(num: bv64, bit: bv64)
    requires bit < 64 && bit & 48 == 16
    ensures (num & (1 << bit)) != 0 <==> (num >> bit) & 1 == 1
  {
    if bit & 8 == 0 {
      if bit & 4 == 0 {
        if bit & 2 == 0 {
          if bit & 1 == 0 { } else { }
        } else {
          if bit & 1 == 0 { } else { }
        }
      } else {
        if bit & 2 == 0 {
          if bit & 1 == 0 { } else { }
        } else {
          if bit & 1 == 0 { } else { }
        }
      }
    } else {
      if bit & 4 == 0 {
        if bit & 2 == 0 {
          if bit & 1 == 0 { } else { }
        } else {
          if bit & 1 == 0 { } else { }
        }
      } else {
        if bit & 2 == 0 {
          if bit & 1 == 0 { } else { }
        } else {
          if bit & 1 == 0 { } else { }
        }
      }
    }
  }

  /** MaskBit for the shift amounts 32 to 47. */
  lemma MaskQuarter2(num: bv64, bit: bv64)
    requires bit < 64 && bit & 48 == 32
    ensures (num & (1 << bit)) != 0 <==> (num >> bit) & 1 == 1
  {
    if bit & 8 == 0 {
      if bit & 4 == 0 {
        if bit & 2 == 0 {
          if bit & 1 == 0 { } else { }
        } else {
          if bit & 1 == 0 { } else { }
        }
      } else {
        if bit & 2 == 0 {
          if bit & 1 == 0 { } else { }
        } else {
          if bit & 1 == 0 { } else { }
        }
      }
    } else {
      if bit & 4 == 0 {
        if bit & 2 == 0 {
          if bit & 1 == 0 { } else { }
        } else {
          if bit & 1 == 0 { } else { }
        }
      } else {
        if bit & 2 == 0 {
          if bit & 1 == 0 { } else { }
        } else {
          if bit & 1 == 0 { } else { }
        }
      }
    }
  }

  /** MaskBit for the shift amounts 48 to 63. */
  lemma MaskQuarter3(num: bv64, bit: bv64)
    requires bit < 64 && bit & 48 == 48
    ensures (num & (1 << bit)) != 0 <==> (num >> bit) & 1 == 1
  {
    if bit & 8 == 0 {
      if bit & 4 == 0 {
        if bit & 2 == 0 {
          if bit & 1 == 0 { } else { }
        } else {
          if bit & 1 == 0 { } else { }
        }
      } else {
        if bit & 2 == 0 {
          if bit & 1 == 0 { } else { }
        } else {
          if bit & 1 == 0 { } else { }
        }
      }
    } else {
      if bit & 4 == 0 {
        if bit & 2 == 0 {
          if bit & 1 == 0 { } else { }
        } else {
          if bit & 1 == 0 { } else { }
        }
      } else {
        if bit & 2 == 0 {
          if bit & 1 == 0 { } else { }
        } else {
          if bit & 1 == 0 { } else { }
        }
      }
    }
  }

}
