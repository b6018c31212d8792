/** The 32-bit Mersenne Twister: the infinite recurrence, and the generator that produces it in
    batches, twisting its state array in place. */
module MersenneTwister {

  const N: nat := 624
  const M: nat := 397
  const A: bv32 := 0x9908_B0DF
  const F: bv32 := 1812433253
  const MASK_LOWER: bv32 := 0x7FFF_FFFF
  const MASK_UPPER: bv32 := 0x8000_0000

  // ------------------------------------------------------------------ the recurrence

  /** The seeding step, with its index as a word. */
  function Next(previous: bv32, i: bv32): bv32 { F * (previous ^ (previous >> 30)) + i }

  /** The next term of the initialisation. */
  function Seeded(previous: bv32, i: nat): bv32
    requires i < N
  {
    Next(previous, i as bv32)
  }

  /** The twist of the upper bit of one term and the lower bits of the next. */
  function Twist(upper: bv32, lower: bv32): bv32 {
    var x := (upper & MASK_UPPER) + (lower & MASK_LOWER);
    if x & 1 != 0 then (x >> 1) ^ A else x >> 1
  }

  function Combine(far: bv32, twisted: bv32): bv32 { far ^ twisted }

  /** The terms of MT19937: seeded up to N, then the linear recurrence. */
  function Term(seed: bv32, k: nat): bv32 {
    if k == 0 then seed
    else if k < N then Seeded(Term(seed, k - 1), k)
    else Combine(Term(seed, k - N + M), Twist(Term(seed, k - N), Term(seed, k - N + 1)))
  }

  /** The tempering of a term. */
  function Temper(x: bv32): bv32 {
    var y1 := x ^ (x >> 11);
    var y2 := y1 ^ ((y1 << 7) & 0x9D2C_5680);
    var y3 := y2 ^ ((y2 << 15) & 0xEFC6_0000);
    y3 ^ (y3 >> 18)
  }

  lemma TermSeeded(seed: bv32, k: nat)
    requires 0 < k < N
    ensures Term(seed, k) == Seeded(Term(seed, k - 1), k)
  {
  }

  lemma TermTwisted(seed: bv32, k: nat)
    ensures Term(seed, k + N) == Combine(Term(seed, k + M), Twist(Term(seed, k), Term(seed, k + 1)))
  {
    hide Twist, Combine, Seeded;
  }

  // ------------------------------------------------------------------ the generator

  class Random {
    const mt: array<bv32>
    var index: nat
    ghost var seed: bv32
    /** How many numbers have been drawn since the last seeding. */
    ghost var drawn: nat

    /** The array holds N consecutive terms, and `index` is the place of the next one to draw. */
    ghost predicate Valid()
      reads this, mt
    {
      && mt.Length == N && index <= N && index <= drawn + N
      && forall i: nat :: i < N ==> mt[i] == Term(seed, drawn + N - index + i)
    }

    constructor (seed: bv32)
      ensures Valid() && this.seed == seed && drawn == 0 && fresh(mt)
    {
      mt := new bv32[N](_ => 0);
      index := 0;
      new;
      Set(seed);
    }

    /** Seeds the generator. */
    method Set(s: bv32)
      requires mt.Length == N
      modifies this, mt
      ensures Valid() && seed == s && drawn == 0
    {
      hide Term, Seeded;
      mt[0] := s;
      TermZero(s);
      for i := 1 to N
        invariant forall j: nat :: j < i ==> mt[j] == Term(s, j)
      {
        TermSeeded(s, i);
        mt[i] := Seeded(mt[i - 1], i);
      }
      index := N;
      seed, drawn := s, 0;
    }

    /** Draws the next number, after twisting the whole array when it is used up. */
    method Number() returns (y: bv32)
      requires Valid()
      modifies this, mt
      ensures Valid() && seed == old(seed) && drawn == old(drawn) + 1
      ensures y == Temper(Term(seed, N + old(drawn)))
    {
      hide Term, Temper;
      if index >= N {
        TwistAll(drawn);
        index := 0;
      }
      y := Temper(mt[index]);
      index := index + 1;
      drawn := drawn + 1;
    }

    /** The batch twist: every term gives way to the term N places on. */
    method TwistAll(ghost base: nat)
      requires mt.Length == N && forall j: nat :: j < N ==> mt[j] == Term(seed, base + j)
      modifies mt
      ensures forall j: nat :: j < N ==> mt[j] == Term(seed, base + N + j)
    {
      hide Term, Twist, Combine;
      for i := 0 to N
        invariant forall j: nat :: j < i ==> mt[j] == Term(seed, base + N + j)
        invariant forall j: nat :: i <= j < N ==> mt[j] == Term(seed, base + j)
      {
        TermTwisted(seed, base + i);
        var x := Twist(mt[i], mt[(i + 1) % N]);
        Wrapped(i);
        mt[i] := Combine(mt[(i + M) % N], x);
      }
    }
  }

  lemma TermZero(seed: bv32)
    ensures Term(seed, 0) == seed
  {
  }

  /** Where the wrapped indices of the twist point: behind the place being written they meet terms
      that are already N places on. */
  lemma Wrapped(i: nat)
    requires i < N
    ensures (i + 1) % N == if i + 1 < N then i + 1 else 0
    ensures (i + M) % N == if i + M < N then i + M else i + M - N
  {
  }
}
