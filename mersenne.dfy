/**
 * The Mersenne Twister generators of mersenne.c: MT19937 over a state of 624
 * 32-bit words and MT19937-64 over 312 64-bit words. Each generator is an
 * object whose state array is rewritten in place by seeding and twisting,
 * and whose index advances with every draw. Words are bit-vectors, so C's
 * unsigned wrap-around is the arithmetic used here.
 */
module Mersenne {
  // ---------------------------------------------------------------------
  // MT19937, 32-bit words

  const N: nat := 624
  /** The offset of the word each twist step mixes in. */
  const M: nat := 397
  /** The seed uint32 falls back to when the generator was never seeded. */
  const DefaultSeed: bv32 := 4357
  const Mag01: seq<bv32> := [0, 0x9908b0df]

  /** A signed 64-bit value as its two's-complement word. */
  function Word64(x: int): (w: bv64)
    requires -0x8000_0000_0000_0000 <= x < 0x8000_0000_0000_0000
  {
    (x % 0x1_0000_0000_0000_0000) as bv64
  }

  /**
   * seedMT's folding of a 64-bit seed to 32 bits: the high half XOR-ed with
   * the low half. The arithmetic shift of the C code only fills bits that
   * the mask then clears, so a logical shift gives the same word.
   */
  function FoldSeed(w: bv64): bv32
  {
    (((w >> 32) ^ w) & 0xFFFF_FFFF) as bv32
  }

  /** The fold is the XOR of the seed's two halves. */
  lemma FoldSeedHalves(w: bv64)
    ensures FoldSeed(w) == (w >> 32) as bv32 ^ (w & 0xFFFF_FFFF) as bv32
  {
  }

  /** A seed word that fits in 32 bits is kept as it is. */
  lemma SmallWord(w: bv64)
    requires w < 0x1_0000_0000
    ensures FoldSeed(w) == w as bv32
  {
  }

  /**
   * The loop counter i as the unsigned word C converts it to, counted up
   * from zero so that no integer-to-word conversion is needed.
   */
  function Count32(n: nat): bv32
  {
    if n == 0 then 0 else Count32(n - 1) + 1
  }

  lemma Count32Next(n: nat)
    ensures Count32(n + 1) == Count32(n) + 1
  {
  }

  /** One step of initializeMT's recurrence, mod 2^32. */
  function InitWord(prev: bv32, i: bv32): bv32
  {
    1812433253 * (prev ^ (prev >> 30)) + i
  }

  /** The first n words initializeMT writes for a seed. */
  function InitState(seed: bv32, n: nat): (s: seq<bv32>)
    requires 1 <= n <= N
    ensures |s| == n && s[0] == seed
  {
    if n == 1 then [seed]
    else
      var p := InitState(seed, n - 1);
      p + [InitWord(p[n - 2], Count32(n - 1))]
  }

  /** The table grows by appending: a shorter run is a prefix of a longer one. */
  lemma {:induction false} InitPrefix(seed: bv32, m: nat, n: nat)
    requires 1 <= m <= n <= N
    ensures InitState(seed, n)[..m] == InitState(seed, m)
    decreases n
  {
    if m < n {
      InitPrefix(seed, m, n - 1);
      assert InitState(seed, n)[..n - 1] == InitState(seed, n - 1);
    }
  }

  /** Every word of the initial table follows from the one before it. */
  lemma InitRecurrence(seed: bv32)
    ensures |InitState(seed, N)| == N && InitState(seed, N)[0] == seed
    ensures forall i :: 1 <= i < N ==> InitState(seed, N)[i] == InitWord(InitState(seed, N)[i - 1], Count32(i))
  {
    forall i | 1 <= i < N
      ensures InitState(seed, N)[i] == InitWord(InitState(seed, N)[i - 1], Count32(i))
    {
      InitAt(seed, i);
    }
  }

  lemma InitAt(seed: bv32, i: nat)
    requires 1 <= i < N
    ensures InitState(seed, N)[i] == InitWord(InitState(seed, N)[i - 1], Count32(i))
  {
    InitPrefix(seed, i + 1, N);
    var p := InitState(seed, i + 1);
    assert InitState(seed, N)[i] == p[i] && InitState(seed, N)[i - 1] == p[i - 1];
    assert p == InitState(seed, i) + [InitWord(InitState(seed, i)[i - 1], Count32(i))];
  }

  /** One twist step: the top bit of a, the low 31 bits of b, shifted and mixed into c. */
  function TwistWord(a: bv32, b: bv32, c: bv32): bv32
  {
    var y := (a & 0x8000_0000) | (b & 0x7fff_ffff);
    c ^ (y >> 1) ^ (if y & 0x1 == 0 then Mag01[0] else Mag01[1])
  }

  /** The state after the first n steps of generateUntemperedMT, each reading the words as they stand. */
  function TwistState(s: seq<bv32>, n: nat): (t: seq<bv32>)
    requires |s| == N && n <= N
    ensures |t| == N
  {
    if n == 0 then s
    else
      var p := TwistState(s, n - 1);
      p[n - 1 := TwistWord(p[n - 1], p[n % N], p[(n - 1 + M) % N])]
  }

  function Twist(s: seq<bv32>): (t: seq<bv32>)
    requires |s| == N
    ensures |t| == N
  {
    TwistState(s, N)
  }

  /** Words from n on are not yet rewritten. */
  lemma {:induction false} TwistUntouched(s: seq<bv32>, n: nat)
    requires |s| == N && n <= N
    ensures forall k :: n <= k < N ==> TwistState(s, n)[k] == s[k]
  {
    if n > 0 {
      TwistUntouched(s, n - 1);
    }
  }

  /** Words before n are final once step n is reached. */
  lemma {:induction false} TwistSettled(s: seq<bv32>, m: nat, n: nat)
    requires |s| == N && m <= n <= N
    ensures forall k :: 0 <= k < m ==> TwistState(s, n)[k] == TwistState(s, m)[k]
    decreases n
  {
    if m < n {
      TwistSettled(s, m, n - 1);
    }
  }

  /**
   * The in-place twist as the MT19937 recurrence: new word k mixes old words
   * k and k+1 with old word k+397 while that is not yet rewritten, and with
   * the new word k-227 after; the last step reads the new word 0.
   */
  lemma TwistRecurrence(s: seq<bv32>, k: nat)
    requires |s| == N && k < N
    ensures Twist(s)[k] == TwistWord(s[k], if k + 1 < N then s[k + 1] else Twist(s)[0],
                                      if k + M < N then s[k + M] else Twist(s)[k + M - N])
  {
    TwistSettled(s, k + 1, N);
    TwistUntouched(s, k);
    var p := TwistState(s, k);
    assert TwistState(s, k + 1)[k] == TwistWord(p[k], p[(k + 1) % N], p[(k + M) % N]);
    assert Twist(s)[k] == TwistState(s, k + 1)[k];
    assert p[k] == s[k];
    if k + 1 < N {
      assert p[(k + 1) % N] == s[k + 1];
    }
    if k + M < N {
      assert p[(k + M) % N] == s[k + M];
    }
    if k + 1 == N {
      TwistSettled(s, 1, k);
      TwistSettled(s, 1, N);
    }
    if k + M >= N {
      TwistSettled(s, k + M - N + 1, k);
      TwistSettled(s, k + M - N + 1, N);
    }
  }

  /** The tempering uint32 applies to the word it reads. */
  function Temper(x: bv32): bv32
  {
    var y1 := x ^ (x >> 11);
    var y2 := y1 ^ ((y1 << 7) & 0x9d2c_5680);
    var y3 := y2 ^ ((y2 << 15) & 0xefc6_0000);
    y3 ^ (y3 >> 18)
  }

  /** The generator's state as a value: the words, the read position, and whether it was seeded. */
  datatype MTState = MTState(mt: seq<bv32>, index: int, initialized: bool)

  predicate Good(s: MTState)
  {
    |s.mt| == N && (s.initialized ==> 0 <= s.index < N)
  }

  /** An unseeded generator is seeded with the default first. */
  function Seeded(s: MTState): (r: MTState)
    requires Good(s)
    ensures Good(r) && r.initialized
  {
    if s.initialized then s else MTState(InitState(DefaultSeed, N), 0, true)
  }

  /** At index 0 the whole table is twisted before the read. */
  function Refreshed(s: MTState): (r: MTState)
    requires Good(s) && s.initialized
    ensures Good(r) && r.initialized && r.index == s.index
  {
    if s.index == 0 then s.(mt := Twist(s.mt)) else s
  }

  /** The word uint32 returns. */
  function Output(s: MTState): bv32
    requires Good(s) && s.initialized
  {
    var t := Refreshed(s);
    Temper(t.mt[t.index])
  }

  /** The state after uint32. */
  function Advance(s: MTState): (r: MTState)
    requires Good(s) && s.initialized
    ensures Good(r) && r.initialized
  {
    var t := Refreshed(s);
    t.(index := if t.index + 1 >= N then 0 else t.index + 1)
  }

  /** n draws in a row: the states passed through. */
  function After(s: MTState, n: nat): (r: MTState)
    requires Good(s) && s.initialized
    ensures Good(r) && r.initialized
  {
    if n == 0 then s else Advance(After(s, n - 1))
  }

  /** n draws in a row: the words returned. */
  function Outputs(s: MTState, n: nat): (ys: seq<bv32>)
    requires Good(s) && s.initialized
    ensures |ys| == n
  {
    if n == 0 then [] else Outputs(s, n - 1) + [Output(After(s, n - 1))]
  }

  /** Draw k of a run is the output of the state k steps in. */
  lemma {:induction false} OutputsAt(s: MTState, n: nat, k: nat)
    requires Good(s) && s.initialized && k < n
    ensures Outputs(s, n)[k] == Output(After(s, k))
  {
    if k < n - 1 {
      OutputsAt(s, n - 1, k);
    }
  }

  /** From a seeded state at index 0, n ≤ N steps read the twisted table from word 0 on. */
  lemma {:induction false} AfterRun(s: MTState, n: nat)
    requires Good(s) && s.initialized && s.index == 0 && 1 <= n <= N
    ensures After(s, n) == MTState(Twist(s.mt), n % N, true)
  {
    if n == 1 {
      assert After(s, 1) == Advance(s);
    } else {
      AfterRun(s, n - 1);
      var t := After(s, n - 1);
      assert Refreshed(t) == t;
    }
  }

  /**
   * From a seeded state at index 0, the next n ≤ 624 draws twist once and
   * then return the tempered words 0, 1, …, n-1 of the twisted table; after
   * 624 draws the index is back at 0.
   */
  lemma OutputsRun(s: MTState, n: nat)
    requires Good(s) && s.initialized && s.index == 0 && 1 <= n <= N
    ensures forall k :: 0 <= k < n ==> Outputs(s, n)[k] == Temper(Twist(s.mt)[k])
  {
    forall k | 0 <= k < n
      ensures Outputs(s, n)[k] == Temper(Twist(s.mt)[k])
    {
      OutputRun(s, n, k);
    }
  }

  /** Draw k of such a run. */
  lemma OutputRun(s: MTState, n: nat, k: nat)
    requires Good(s) && s.initialized && s.index == 0 && k < n <= N
    ensures Outputs(s, n)[k] == Temper(Twist(s.mt)[k])
  {
    OutputsAt(s, n, k);
    if k == 0 {
      assert After(s, 0) == s;
    } else {
      AfterRun(s, k);
      var t := After(s, k);
      assert Refreshed(t) == t;
    }
  }

  /** Two draws combined as int63 does: the first shifted left by 31, XOR-ed with the second. */
  function Combine(a: bv32, b: bv32): bv64
  {
    ((a as bv64) << 31) ^ (b as bv64)
  }

  /**
   * int63's result is below 2^63, so non-negative as a signed 64-bit value;
   * its top 32 bits are the first draw without its lowest bit and its low 31
   * bits are the second draw's; bit 31 is the XOR of the first draw's lowest
   * bit and the second draw's highest.
   */
  lemma CombineBits(a: bv32, b: bv32)
    ensures Combine(a, b) < 0x8000_0000_0000_0000
    ensures Combine(a, b) >> 32 == (a >> 1) as bv64
    ensures Combine(a, b) & 0x7fff_ffff == (b & 0x7fff_ffff) as bv64
    ensures (Combine(a, b) >> 31) & 1 == ((a & 1) ^ (b >> 31)) as bv64
  {
  }

  class MersenneTwister {
    const mt: array<bv32>
    var index: int
    var initialized: bool

    ghost predicate Valid()
      reads this
    {
      mt.Length == N && (initialized ==> 0 <= index < N)
    }

    function State(): (s: MTState)
      reads this, mt
    {
      MTState(mt[..], index, initialized)
    }

    /** newMersenneTwister(seed): a generator seeded by seedMT. */
    constructor (seed: int)
      requires -0x8000_0000_0000_0000 <= seed < 0x8000_0000_0000_0000
      ensures Valid() && fresh(mt)
      ensures State() == MTState(InitState(FoldSeed(Word64(seed)), N), 0, true)
    {
      mt := new bv32[N];
      index := 0;
      initialized := false;
      new;
      SeedMT(seed);
    }

    /** seedMT: initializeMT with the folded seed. */
    method SeedMT(seed: int)
      requires Valid() && -0x8000_0000_0000_0000 <= seed < 0x8000_0000_0000_0000
      modifies this, mt
      ensures Valid() && State() == MTState(InitState(FoldSeed(Word64(seed)), N), 0, true)
    {
      InitializeMT(FoldSeed(Word64(seed)));
    }

    /** initializeMT: index 0, word 0 the seed, every later word from the one before, seeded. */
    method InitializeMT(seed: bv32)
      requires Valid()
      modifies this, mt
      ensures Valid() && State() == MTState(InitState(seed, N), 0, true)
    {
      index := 0;
      FillTable(seed);
      initialized := true;
    }

    /** initializeMT's loop: each word from the one before it and its index. */
    method FillTable(seed: bv32)
      requires mt.Length == N
      modifies mt
      ensures mt[..] == InitState(seed, N)
    {
      mt[0] := seed;
      var k: bv32 := 1;
      for i := 1 to N
        invariant k == Count32(i)
        invariant mt[..i] == InitState(seed, i)
      {
        k := InitStep(seed, i, k);
      }
      assert mt[..] == mt[..N];
    }

    /** generateUntemperedMT: rewrite the table in index order. */
    method GenerateUntempered()
      requires Valid()
      modifies mt
      ensures Valid() && mt[..] == Twist(old(mt[..]))
    {
      ghost var s := mt[..];
      for i := 0 to N
        invariant mt[..] == TwistState(s, i)
      {
        mt[i] := TwistWord(mt[i], mt[(i + 1) % N], mt[(i + M) % N]);
      }
    }

    /** One step of initializeMT's loop: word i from word i - 1. */
    method InitStep(ghost seed: bv32, i: nat, k: bv32) returns (next: bv32)
      requires mt.Length == N && 1 <= i < N && mt[..i] == InitState(seed, i) && k == Count32(i)
      modifies mt
      ensures mt[..i + 1] == InitState(seed, i + 1) && next == Count32(i + 1)
    {
      mt[i] := InitWord(mt[i - 1], k);
      assert mt[..i + 1] == mt[..i] + [mt[i]];
      next := k + 1;
      Count32Next(i);
    }

    /** uint32: seed if needed, twist at index 0, read and temper the word at index, advance index. */
    method Uint32() returns (y: bv32)
      requires Valid()
      modifies this, mt
      ensures Valid() && y == Output(Seeded(old(State()))) && State() == Advance(Seeded(old(State())))
    {
      Prepare();
      y := Read();
    }

    /** The first half of a draw: seed if needed, then twist the table when index is 0. */
    method Prepare()
      requires Valid()
      modifies this, mt
      ensures Valid() && initialized && State() == Refreshed(Seeded(old(State())))
    {
      ghost var s0 := State();
      if !initialized {
        InitializeMT(DefaultSeed);
      }
      assert State() == Seeded(s0);
      if index == 0 {
        GenerateUntempered();
      }
    }

    /** The second half: temper the word at index and move index on, wrapping at N. */
    method Read() returns (y: bv32)
      requires Valid() && initialized
      modifies this
      ensures Valid() && initialized && y == Temper(mt[old(index)])
      ensures mt[..] == old(mt[..]) && index == if old(index) + 1 >= N then 0 else old(index) + 1
    {
      var x := mt[index];
      index := index + 1;
      if index >= N {
        index := 0;
      }
      y := Temper(x);
    }

    /** int63: two draws, combined; the result is a non-negative 64-bit value. */
    method Int63() returns (r: bv64)
      requires Valid()
      modifies this, mt
      ensures Valid()
      ensures r == Combine(Output(Seeded(old(State()))), Output(Advance(Seeded(old(State())))))
      ensures State() == Advance(Advance(Seeded(old(State()))))
    {
      var a := Uint32();
      var b := Uint32();
      r := Combine(a, b);
    }
  }

  // ---------------------------------------------------------------------
  // MT19937-64, 64-bit words

  const NN: nat := 312
  /** The offset of the word each twist step mixes in. */
  const MM: nat := 156
  const DefaultSeed64: bv64 := 5489
  /** The fixed seed seedSliceMT64 starts from. */
  const SliceSeed: bv64 := 19650218
  const Mag01x64: seq<bv64> := [0, 0xb502_6f5a_a966_19e9]

  /** The loop counter i as an unsigned 64-bit word. */
  function Count64(n: nat): bv64
  {
    if n == 0 then 0 else Count64(n - 1) + 1
  }

  lemma Count64Next(n: nat)
    ensures Count64(n + 1) == Count64(n) + 1
  {
  }

  /** One step of initializeMT64's recurrence, mod 2^64. */
  function InitWord64(prev: bv64, i: bv64): bv64
  {
    6364136223846793005 * (prev ^ (prev >> 62)) + i
  }

  /** The first n words initializeMT64 writes for a seed. */
  function InitState64(seed: bv64, n: nat): (s: seq<bv64>)
    requires 1 <= n <= NN
    ensures |s| == n && s[0] == seed
  {
    if n == 1 then [seed]
    else
      var p := InitState64(seed, n - 1);
      p + [InitWord64(p[n - 2], Count64(n - 1))]
  }

  lemma {:induction false} InitPrefix64(seed: bv64, m: nat, n: nat)
    requires 1 <= m <= n <= NN
    ensures InitState64(seed, n)[..m] == InitState64(seed, m)
    decreases n
  {
    if m < n {
      InitPrefix64(seed, m, n - 1);
      assert InitState64(seed, n)[..n - 1] == InitState64(seed, n - 1);
    }
  }

  /** Every word of the initial 64-bit table follows from the one before it. */
  lemma InitRecurrence64(seed: bv64)
    ensures |InitState64(seed, NN)| == NN && InitState64(seed, NN)[0] == seed
    ensures forall i :: 1 <= i < NN ==>
      InitState64(seed, NN)[i] == InitWord64(InitState64(seed, NN)[i - 1], Count64(i))
  {
    forall i | 1 <= i < NN
      ensures InitState64(seed, NN)[i] == InitWord64(InitState64(seed, NN)[i - 1], Count64(i))
    {
      InitAt64(seed, i);
    }
  }

  lemma InitAt64(seed: bv64, i: nat)
    requires 1 <= i < NN
    ensures InitState64(seed, NN)[i] == InitWord64(InitState64(seed, NN)[i - 1], Count64(i))
  {
    InitPrefix64(seed, i + 1, NN);
    var p := InitState64(seed, i + 1);
    assert InitState64(seed, NN)[i] == p[i] && InitState64(seed, NN)[i - 1] == p[i - 1];
    assert p == InitState64(seed, i) + [InitWord64(InitState64(seed, i)[i - 1], Count64(i))];
  }

  /** One 64-bit twist step: the top 33 bits of a, the low 31 bits of b, shifted and mixed into c. */
  function TwistWord64(a: bv64, b: bv64, c: bv64): bv64
  {
    var y := (a & 0xFFFF_FFFF_8000_0000) | (b & 0x7FFF_FFFF);
    c ^ (y >> 1) ^ (if y & 0x1 == 0 then Mag01x64[0] else Mag01x64[1])
  }

  function TwistState64(s: seq<bv64>, n: nat): (t: seq<bv64>)
    requires |s| == NN && n <= NN
    ensures |t| == NN
  {
    if n == 0 then s
    else
      var p := TwistState64(s, n - 1);
      p[n - 1 := TwistWord64(p[n - 1], p[n % NN], p[(n - 1 + MM) % NN])]
  }

  function Twist64(s: seq<bv64>): (t: seq<bv64>)
    requires |s| == NN
    ensures |t| == NN
  {
    TwistState64(s, NN)
  }

  lemma {:induction false} TwistUntouched64(s: seq<bv64>, n: nat)
    requires |s| == NN && n <= NN
    ensures forall k :: n <= k < NN ==> TwistState64(s, n)[k] == s[k]
  {
    if n > 0 {
      TwistUntouched64(s, n - 1);
    }
  }

  lemma {:induction false} TwistSettled64(s: seq<bv64>, m: nat, n: nat)
    requires |s| == NN && m <= n <= NN
    ensures forall k :: 0 <= k < m ==> TwistState64(s, n)[k] == TwistState64(s, m)[k]
    decreases n
  {
    if m < n {
      TwistSettled64(s, m, n - 1);
    }
  }

  /** The in-place 64-bit twist as the MT19937-64 recurrence, with the offset 156. */
  lemma TwistRecurrence64(s: seq<bv64>, k: nat)
    requires |s| == NN && k < NN
    ensures Twist64(s)[k] == TwistWord64(s[k], if k + 1 < NN then s[k + 1] else Twist64(s)[0],
                                      if k + MM < NN then s[k + MM] else Twist64(s)[k + MM - NN])
  {
    TwistSettled64(s, k + 1, NN);
    TwistUntouched64(s, k);
    var p := TwistState64(s, k);
    assert TwistState64(s, k + 1)[k] == TwistWord64(p[k], p[(k + 1) % NN], p[(k + MM) % NN]);
    assert Twist64(s)[k] == TwistState64(s, k + 1)[k];
    assert p[k] == s[k];
    if k + 1 < NN {
      assert p[(k + 1) % NN] == s[k + 1];
    }
    if k + MM < NN {
      assert p[(k + MM) % NN] == s[k + MM];
    }
    if k + 1 == NN {
      TwistSettled64(s, 1, k);
      TwistSettled64(s, 1, NN);
    }
    if k + MM >= NN {
      TwistSettled64(s, k + MM - NN + 1, k);
      TwistSettled64(s, k + MM - NN + 1, NN);
    }
  }

  function Temper64(x: bv64): bv64
  {
    var y1 := x ^ ((x >> 29) & 0x5555_5555_5555_5555);
    var y2 := y1 ^ ((y1 << 17) & 0x71d6_7fff_eda6_0000);
    var y3 := y2 ^ ((y2 << 37) & 0xfff7_eee0_0000_0000);
    y3 ^ (y3 >> 43)
  }

  /** int63_64's mask: the result is below 2^63 and keeps every other bit. */
  lemma ClearTopBit(y: bv64)
    ensures y & 0x7FFF_FFFF_FFFF_FFFF < 0x8000_0000_0000_0000
    ensures (y & 0x7FFF_FFFF_FFFF_FFFF) | (y & 0x8000_0000_0000_0000) == y
  {
  }

  datatype MTState64 = MTState64(mt: seq<bv64>, index: int, initialized: bool)

  predicate Good64(s: MTState64)
  {
    |s.mt| == NN && (s.initialized ==> 0 <= s.index < NN)
  }

  function Seeded64(s: MTState64): (r: MTState64)
    requires Good64(s)
    ensures Good64(r) && r.initialized
  {
    if s.initialized then s else MTState64(InitState64(DefaultSeed64, NN), 0, true)
  }

  function Refreshed64(s: MTState64): (r: MTState64)
    requires Good64(s) && s.initialized
    ensures Good64(r) && r.initialized && r.index == s.index
  {
    if s.index == 0 then s.(mt := Twist64(s.mt)) else s
  }

  function Output64(s: MTState64): bv64
    requires Good64(s) && s.initialized
  {
    var t := Refreshed64(s);
    Temper64(t.mt[t.index])
  }

  function Advance64(s: MTState64): (r: MTState64)
    requires Good64(s) && s.initialized
    ensures Good64(r) && r.initialized
  {
    var t := Refreshed64(s);
    t.(index := if t.index + 1 >= NN then 0 else t.index + 1)
  }

  function After64(s: MTState64, n: nat): (r: MTState64)
    requires Good64(s) && s.initialized
    ensures Good64(r) && r.initialized
  {
    if n == 0 then s else Advance64(After64(s, n - 1))
  }

  function Outputs64(s: MTState64, n: nat): (ys: seq<bv64>)
    requires Good64(s) && s.initialized
    ensures |ys| == n
  {
    if n == 0 then [] else Outputs64(s, n - 1) + [Output64(After64(s, n - 1))]
  }

  /** Draw k of a run is the output of the state k steps in. */
  lemma {:induction false} OutputsAt64(s: MTState64, n: nat, k: nat)
    requires Good64(s) && s.initialized && k < n
    ensures Outputs64(s, n)[k] == Output64(After64(s, k))
  {
    if k < n - 1 {
      OutputsAt64(s, n - 1, k);
    }
  }

  /** From a seeded state at index 0, n ≤ NN steps read the twisted table from word 0 on. */
  lemma {:induction false} AfterRun64(s: MTState64, n: nat)
    requires Good64(s) && s.initialized && s.index == 0 && 1 <= n <= NN
    ensures After64(s, n) == MTState64(Twist64(s.mt), n % NN, true)
  {
    if n == 1 {
      assert After64(s, 1) == Advance64(s);
    } else {
      AfterRun64(s, n - 1);
      var t := After64(s, n - 1);
      assert Refreshed64(t) == t;
    }
  }

  /** From a seeded state at index 0, the next n ≤ 312 draws are the tempered words of the twisted table. */
  lemma OutputsRun64(s: MTState64, n: nat)
    requires Good64(s) && s.initialized && s.index == 0 && 1 <= n <= NN
    ensures forall k :: 0 <= k < n ==> Outputs64(s, n)[k] == Temper64(Twist64(s.mt)[k])
  {
    forall k | 0 <= k < n
      ensures Outputs64(s, n)[k] == Temper64(Twist64(s.mt)[k])
    {
      OutputRun64(s, n, k);
    }
  }

  /** Draw k of such a run. */
  lemma OutputRun64(s: MTState64, n: nat, k: nat)
    requires Good64(s) && s.initialized && s.index == 0 && k < n <= NN
    ensures Outputs64(s, n)[k] == Temper64(Twist64(s.mt)[k])
  {
    OutputsAt64(s, n, k);
    if k == 0 {
      assert After64(s, 0) == s;
    } else {
      AfterRun64(s, k);
      var t := After64(s, k);
      assert Refreshed64(t) == t;
    }
  }

  // seedSliceMT64

  /**
   * A cursor that starts at 0, steps on by one and restarts at 0 on
   * reaching m: the i cursor of both loops is 1 + Cycle(k, 311), the j
   * cursor of the first is Cycle(k, seedLength).
   */
  function Cycle(k: nat, m: nat): (c: nat)
    requires m > 0
    ensures c < m
  {
    if k == 0 then 0 else if Cycle(k - 1, m) + 1 == m then 0 else Cycle(k - 1, m) + 1
  }

  /** The cursor after k steps is k mod m. */
  lemma {:induction false} CycleMod(k: nat, m: nat)
    requires m > 0
    ensures Cycle(k, m) == k % m
  {
    if k > 0 {
      CycleMod(k - 1, m);
      ModStep(k, m);
    }
  }

  /** The first loop's word: old word i, the word before it scrambled, plus seed word j and j. */
  function MixWord(cur: bv64, prev: bv64, s: bv64, j: bv64): bv64
  {
    (cur ^ ((prev ^ (prev >> 62)) * 3935559000370003845)) + s + j
  }

  /** The second loop's word: old word i, the word before it scrambled, minus i. */
  function ScrambleWord(cur: bv64, prev: bv64, i: bv64): bv64
  {
    (cur ^ ((prev ^ (prev >> 62)) * 2862933555777941757)) - i
  }

  /** Word i rewritten; past word 311 the table wraps, word 0 taking word 311. */
  function Rewrite(mt: seq<bv64>, i: nat, x: bv64): (r: seq<bv64>)
    requires |mt| == NN && 1 <= i < NN
    ensures |r| == NN
  {
    var q := mt[i := x];
    if i + 1 >= NN then q[0 := q[NN - 1]] else q
  }

  /** The table t0 after k steps of the first loop. */
  function MixSteps(t0: seq<bv64>, seed: seq<bv64>, k: nat): (t: seq<bv64>)
    requires |t0| == NN && 1 <= |seed| < 0x8000_0000
    ensures |t| == NN
  {
    if k == 0 then t0
    else
      var p := MixSteps(t0, seed, k - 1);
      var i := 1 + Cycle(k - 1, NN - 1);
      var j := Cycle(k - 1, |seed|);
      Rewrite(p, i, MixWord(p[i], p[i - 1], seed[j], Count64(j)))
  }

  /** One step of the second loop with the i cursor at 1 + Cycle(n, 311): word i scrambled. */
  function ScrambleOne(p: seq<bv64>, n: nat): (r: seq<bv64>)
    requires |p| == NN
    ensures |r| == NN
  {
    var i := 1 + Cycle(n, NN - 1);
    Rewrite(p, i, ScrambleWord(p[i], p[i - 1], Count64(i)))
  }

  /** k steps of the second loop from table t, the first with the i cursor at 1 + Cycle(n, 311). */
  function ScrambleSteps(t: seq<bv64>, n: nat, k: nat): (r: seq<bv64>)
    requires |t| == NN
    ensures |r| == NN
    decreases k
  {
    if k == 0 then t else ScrambleSteps(ScrambleOne(t, n), n + 1, k - 1)
  }

  function Max(a: nat, b: nat): nat { if a < b then b else a }

  /**
   * seedSliceMT64's table: max(seedLength, 312) mixing steps, 311
   * scrambling steps, then word 0 set to 2^63.
   */
  function SeedSlice(seed: seq<bv64>): (t: seq<bv64>)
    requires 1 <= |seed| < 0x8000_0000
    ensures |t| == NN && t[0] == 1 << 63
  {
    var length := Max(|seed|, NN);
    ScrambleSteps(MixSteps(InitState64(SliceSeed, NN), seed, length), length, NN - 1)[0 := 1 << 63]
  }

  /** Counting on by one modulo m. */
  lemma ModStep(k: nat, m: nat)
    requires m > 0 && k > 0
    ensures k % m == if (k - 1) % m + 1 == m then 0 else (k - 1) % m + 1
  {
    var j := k - 1;
    var q := j / m;
    var r := j % m;
    assert j == q * m + r;
    if r + 1 == m {
      assert k == (q + 1) * m + 0;
      ModUnique(k, m, q + 1, 0);
    } else {
      assert k == q * m + (r + 1);
      ModUnique(k, m, q, r + 1);
    }
  }

  /** The quotient-remainder decomposition determines the remainder. */
  lemma ModUnique(x: int, m: int, q: int, r: int)
    requires m > 0 && 0 <= r < m && x == q * m + r
    ensures x % m == r
  {
    var d := q - x / m;
    assert d * m == x % m - r;
    if d >= 1 {
      MulAtLeast(d, m);
    } else if d <= -1 {
      MulAtLeast(-d, m);
    }
  }

  lemma MulAtLeast(d: int, m: int)
    requires d >= 1 && m > 0
    ensures d * m >= m
  {
  }

  /**
   * A seedSliceMT64 cursor moved on by one, restarting at base once it
   * reaches base + m; cw mirrors it as the word C adds or subtracts.
   */
  method StepCursor(c: int, cw: bv64, ghost k: nat, base: nat, m: nat, bw: bv64) returns (d: int, dw: bv64)
    requires m > 0 && c == base + Cycle(k, m) && cw == Count64(c) && bw == Count64(base)
    ensures d == base + Cycle(k + 1, m) && dw == Count64(d)
  {
    d, dw := c + 1, cw + 1;
    if d >= base + m {
      d, dw := base, bw;
    }
  }

  class MersenneTwister64 {
    const mt: array<bv64>
    var index: int
    var initialized: bool

    ghost predicate Valid()
      reads this
    {
      mt.Length == NN && (initialized ==> 0 <= index < NN)
    }

    function State(): (s: MTState64)
      reads this, mt
    {
      MTState64(mt[..], index, initialized)
    }

    /** newMersenneTwister64(seed): a generator seeded by seedMT64. */
    constructor (seed: int)
      requires -0x8000_0000_0000_0000 <= seed < 0x8000_0000_0000_0000
      ensures Valid() && fresh(mt)
      ensures State() == MTState64(InitState64(Word64(seed), NN), 0, true)
    {
      mt := new bv64[NN];
      index := 0;
      initialized := false;
      new;
      SeedMT64(seed);
    }

    /** seedMT64: initializeMT64 with the seed's two's-complement word. */
    method SeedMT64(seed: int)
      requires Valid() && -0x8000_0000_0000_0000 <= seed < 0x8000_0000_0000_0000
      modifies this, mt
      ensures Valid() && State() == MTState64(InitState64(Word64(seed), NN), 0, true)
    {
      InitializeMT64(Word64(seed));
    }

    method InitializeMT64(seed: bv64)
      requires Valid()
      modifies this, mt
      ensures Valid() && State() == MTState64(InitState64(seed, NN), 0, true)
    {
      index := 0;
      FillTable64(seed);
      initialized := true;
    }

    /** initializeMT64's loop: each word from the one before it and its index. */
    method FillTable64(seed: bv64)
      requires mt.Length == NN
      modifies mt
      ensures mt[..] == InitState64(seed, NN)
    {
      mt[0] := seed;
      var k: bv64 := 1;
      for i := 1 to NN
        invariant k == Count64(i)
        invariant mt[..i] == InitState64(seed, i)
      {
        k := InitStep64(seed, i, k);
      }
      assert mt[..] == mt[..NN];
    }

    /** One step of initializeMT64's loop: word i from word i - 1. */
    method InitStep64(ghost seed: bv64, i: nat, k: bv64) returns (next: bv64)
      requires mt.Length == NN && 1 <= i < NN && mt[..i] == InitState64(seed, i) && k == Count64(i)
      modifies mt
      ensures mt[..i + 1] == InitState64(seed, i + 1) && next == Count64(i + 1)
    {
      mt[i] := InitWord64(mt[i - 1], k);
      assert mt[..i + 1] == mt[..i] + [mt[i]];
      next := k + 1;
      Count64Next(i);
    }

    /**
     * seedSliceMT64: the seed words mixed into the table; index 0, seeded.
     * The C code reads seed[0] even for an empty seed, so one word is needed.
     * The words iw and jw are i and j as the unsigned values C adds and subtracts.
     */
    method SeedSliceMT64(seed: seq<bv64>)
      requires Valid() && 1 <= |seed| < 0x8000_0000
      modifies this, mt
      ensures Valid() && mt[..] == SeedSlice(seed) && index == 0 && initialized
    {
      InitializeMT64(SliceSeed);
      SliceTable(seed);
    }

    /** The table part of seedSliceMT64, from the table initializeMT64 left for the fixed seed. */
    method SliceTable(seed: seq<bv64>)
      requires mt.Length == NN && mt[..] == InitState64(SliceSeed, NN) && 1 <= |seed| < 0x8000_0000
      modifies mt
      ensures mt[..] == SeedSlice(seed)
    {
      var length := |seed|;
      if NN > length {
        length := NN;
      }
      ghost var t0 := mt[..];
      var i, iw := MixSeed(seed, t0, length);
      ghost var mixed := mt[..];
      Scramble(mixed, length, i, iw);
      assert length == Max(|seed|, NN);
      SetTop();
    }

    /** seedSliceMT64's last step: word 0 set to 2^63. */
    method SetTop()
      requires mt.Length == NN
      modifies mt
      ensures mt[..] == old(mt[..])[0 := 1 << 63]
    {
      mt[0] := 1 << 63;
    }

    /** seedSliceMT64's first loop: length steps mixing the seed words into the table. */
    method MixSeed(seed: seq<bv64>, ghost t0: seq<bv64>, length: nat) returns (i: int, iw: bv64)
      requires mt.Length == NN && mt[..] == t0 && 1 <= |seed| < 0x8000_0000
      modifies mt
      ensures mt[..] == MixSteps(t0, seed, length)
      ensures i == 1 + Cycle(length, NN - 1) && iw == Count64(i)
    {
      var j := 0;
      var jw: bv64 := 0;
      i, iw := 1, 1;
      for k := 0 to length
        invariant mt[..] == MixSteps(t0, seed, k)
        invariant i == 1 + Cycle(k, NN - 1) && j == Cycle(k, |seed|) && iw == Count64(i) && jw == Count64(j)
      {
        MixWrite(seed, t0, k, i, j, jw);
        i, iw := StepCursor(i, iw, k, 1, NN - 1, 1);
        j, jw := StepCursor(j, jw, k, 0, |seed|, 0);
      }
    }

    /** seedSliceMT64's second loop: 311 scrambling steps, the i cursor going on from where the first loop left it. */
    method Scramble(ghost mixed: seq<bv64>, ghost length: nat, i0: int, iw0: bv64)
      requires mt.Length == NN && mt[..] == mixed
      requires i0 == 1 + Cycle(length, NN - 1) && iw0 == Count64(i0)
      modifies mt
      ensures mt[..] == ScrambleSteps(mixed, length, NN - 1)
    {
      var i, iw := i0, iw0;
      ghost var steps := length;
      for k := 0 to NN - 1
        invariant ScrambleSteps(mt[..], steps, NN - 1 - k) == ScrambleSteps(mixed, length, NN - 1)
        invariant steps == length + k && i == 1 + Cycle(steps, NN - 1) && iw == Count64(i)
      {
        ScrambleWrite(steps, i, iw);
        i, iw := StepCursor(i, iw, steps, 1, NN - 1, 1);
        steps := steps + 1;
      }
    }

    /** Word i of the first loop rewritten, with the wrap to word 0 past word 311. */
    method MixWrite(seed: seq<bv64>, ghost t0: seq<bv64>, ghost k: nat, i: int, j: int, jw: bv64)
      requires mt.Length == NN && |t0| == NN && 1 <= |seed| < 0x8000_0000
      requires mt[..] == MixSteps(t0, seed, k)
      requires i == 1 + Cycle(k, NN - 1) && j == Cycle(k, |seed|) && jw == Count64(j)
      modifies mt
      ensures mt[..] == MixSteps(t0, seed, k + 1)
    {
      ghost var p := mt[..];
      assert mt[i] == p[i] && mt[i - 1] == p[i - 1];
      RewriteAt(i, MixWord(mt[i], mt[i - 1], seed[j], jw));
    }

    /** Word i of the second loop rewritten, with the same wrap. */
    method ScrambleWrite(ghost n: nat, i: int, iw: bv64)
      requires mt.Length == NN && i == 1 + Cycle(n, NN - 1) && iw == Count64(i)
      modifies mt
      ensures mt[..] == ScrambleOne(old(mt[..]), n)
    {
      RewriteAt(i, ScrambleWord(mt[i], mt[i - 1], iw));
    }

    /** Word i set to x; after word 311, word 0 takes its value too. */
    method RewriteAt(i: int, x: bv64)
      requires mt.Length == NN && 1 <= i < NN
      modifies mt
      ensures mt[..] == Rewrite(old(mt[..]), i, x)
    {
      mt[i] := x;
      if i + 1 >= NN {
        mt[0] := mt[NN - 1];
      }
    }

    method GenerateUntempered64()
      requires Valid()
      modifies mt
      ensures Valid() && mt[..] == Twist64(old(mt[..]))
    {
      ghost var s := mt[..];
      for i := 0 to NN
        invariant mt[..] == TwistState64(s, i)
      {
        mt[i] := TwistWord64(mt[i], mt[(i + 1) % NN], mt[(i + MM) % NN]);
      }
    }

    /** uint64: seed if needed, twist at index 0, read and temper the word at index, advance index. */
    method Uint64() returns (y: bv64)
      requires Valid()
      modifies this, mt
      ensures Valid() && y == Output64(Seeded64(old(State()))) && State() == Advance64(Seeded64(old(State())))
    {
      Prepare64();
      y := Read64();
    }

    /** The first half of a draw: seed if needed, then twist the table when index is 0. */
    method Prepare64()
      requires Valid()
      modifies this, mt
      ensures Valid() && initialized && State() == Refreshed64(Seeded64(old(State())))
    {
      ghost var s0 := State();
      if !initialized {
        InitializeMT64(DefaultSeed64);
      }
      assert State() == Seeded64(s0);
      if index == 0 {
        GenerateUntempered64();
      }
    }

    /** The second half: temper the word at index and move index on, wrapping at NN. */
    method Read64() returns (y: bv64)
      requires Valid() && initialized
      modifies this
      ensures Valid() && initialized && y == Temper64(mt[old(index)])
      ensures mt[..] == old(mt[..]) && index == if old(index) + 1 >= NN then 0 else old(index) + 1
    {
      var x := mt[index];
      index := index + 1;
      if index >= NN {
        index := 0;
      }
      y := Temper64(x);
    }

    /** int63_64: one 64-bit draw with its top bit cleared. */
    method Int63() returns (r: bv64)
      requires Valid()
      modifies this, mt
      ensures Valid() && r == Output64(Seeded64(old(State()))) & 0x7FFF_FFFF_FFFF_FFFF
      ensures State() == Advance64(Seeded64(old(State())))
    {
      var y := Uint64();
      r := y & 0x7FFF_FFFF_FFFF_FFFF;
    }
  }
}
