/** XXH64 as a function of the whole input, and the streaming hasher that computes it from chunks. */
module XxHash {

  const PRIME1: bv64 := 11400714785074694791
  const PRIME2: bv64 := 14029467366897019727
  const PRIME3: bv64 := 1609587929392839161
  const PRIME4: bv64 := 9650029242287828579
  const PRIME5: bv64 := 2870177450012600261

  const UINT64_RANGE: nat := 0x1_0000_0000_0000_0000

  /** The four accumulators. */
  datatype Lanes = Lanes(s0: bv64, s1: bv64, s2: bv64, s3: bv64)

  // ------------------------------------------------------------------ the algorithm

  function RotateLeft(x: bv64, bits: bv8): bv64
    requires 0 < bits < 64
  {
    (x << bits) | (x >> (64 - bits))
  }

  function ProcessSingle(previous: bv64, input: bv64): bv64 {
    RotateLeft(previous + input * PRIME2, 31) * PRIME1
  }

  function Below(word: bv64, byte: bv8): bv64 { (byte as bv64) | (word << 8) }

  /** The little-endian word of `n` bytes. */
  function Word(b: seq<bv8>, n: nat): bv64
    requires n <= |b|
  {
    if n == 0 then 0 else Below(Word(b[1..], n - 1), b[0])
  }

  /** One stripe of 32 bytes. */
  function Stripe(s: Lanes, b: seq<bv8>): Lanes
    requires |b| >= 32
  {
    Lanes(ProcessSingle(s.s0, Word(b, 8)), ProcessSingle(s.s1, Word(b[8..], 8)),
          ProcessSingle(s.s2, Word(b[16..], 8)), ProcessSingle(s.s3, Word(b[24..], 8)))
  }

  /** All full stripes from the front. */
  function Stripes(s: Lanes, b: seq<bv8>): Lanes
    decreases |b|
  {
    if |b| < 32 then s else Stripes(Stripe(s, b[..32]), b[32..])
  }

  /** What is left after the full stripes. */
  function Tail(b: seq<bv8>): (t: seq<bv8>)
    ensures |t| == |b| % 32
  {
    b[|b| - |b| % 32..]
  }

  /** Step 1: the initial accumulators. */
  function Initial(seed: bv64): Lanes { Lanes(seed + PRIME1 + PRIME2, seed + PRIME2, seed, seed - PRIME1) }

  function MergeLane(acc: bv64, lane: bv64): bv64 { (acc ^ ProcessSingle(0, lane)) * PRIME1 + PRIME4 }

  /** Step 3: the accumulators converge. */
  function Converge(s: Lanes): bv64 {
    var acc := RotateLeft(s.s0, 1) + RotateLeft(s.s1, 7) + RotateLeft(s.s2, 12) + RotateLeft(s.s3, 18);
    MergeLane(MergeLane(MergeLane(MergeLane(acc, s.s0), s.s1), s.s2), s.s3)
  }

  function Eat8(acc: bv64, word: bv64): bv64 { RotateLeft(acc ^ ProcessSingle(0, word), 27) * PRIME1 + PRIME4 }
  function Eat4(acc: bv64, word: bv64): bv64 { RotateLeft(acc ^ (word * PRIME1), 23) * PRIME2 + PRIME3 }
  function Eat1(acc: bv64, byte: bv8): bv64 { RotateLeft(acc ^ ((byte as bv64) * PRIME5), 11) * PRIME1 }

  /** Step 5: the remaining bytes. */
  function Consume(acc: bv64, t: seq<bv8>): bv64
    decreases |t|
  {
    if |t| >= 8 then Consume(Eat8(acc, Word(t, 8)), t[8..])
    else if |t| >= 4 then Consume(Eat4(acc, Word(t, 4)), t[4..])
    else if |t| > 0 then Consume(Eat1(acc, t[0]), t[1..])
    else acc
  }

  /** Step 6: the final mix. */
  function Avalanche(acc: bv64): bv64 {
    var a := (acc ^ (acc >> 33)) * PRIME2;
    var b := (a ^ (a >> 29)) * PRIME3;
    b ^ (b >> 32)
  }

  /** Step 3 for inputs shorter than a stripe. */
  function ShortStart(seed: bv64): bv64 { seed + PRIME5 }

  /** Step 4: the length goes in. */
  function AddLength(acc: bv64, n: nat): bv64
    requires n < UINT64_RANGE
  {
    acc + (n as bv64)
  }

  /** The 64-bit hash of an input. */
  function Xxh64(seed: bv64, b: seq<bv8>): bv64 {
    var acc := if |b| < 32 then ShortStart(seed) else Converge(Stripes(Initial(seed), b));
    Avalanche(Consume(AddLength(acc, |b| % UINT64_RANGE), Tail(b)))
  }

  // ------------------------------------------------------------------ stripes of a longer input

  lemma {:induction false} StripesAppend(s: Lanes, a: seq<bv8>, b: seq<bv8>)
    requires |a| % 32 == 0
    ensures Stripes(s, a + b) == Stripes(Stripes(s, a), b)
    decreases |a|
  {
    if |a| < 32 {
      assert a + b == b;
    } else {
      assert (a + b)[..32] == a[..32] && (a + b)[32..] == a[32..] + b;
      hide Stripe;
      StripesAppend(Stripe(s, a[..32]), a[32..], b);
    }
  }

  /** A rest shorter than a stripe adds nothing. */
  lemma StripesShort(s: Lanes, w: seq<bv8>, n: nat)
    requires n <= |w| < n + 32 && n % 32 == 0
    ensures Stripes(s, w) == Stripes(s, w[..n])
    ensures Tail(w) == w[n..]
  {
    hide Stripe;
    assert w == w[..n] + w[n..];
    StripesAppend(s, w[..n], w[n..]);
    assert |w| - |w| % 32 == n;
  }

  /** One more stripe. */
  lemma StripesNext(s: Lanes, w: seq<bv8>, n: nat)
    requires n + 32 <= |w| && n % 32 == 0
    ensures Stripes(s, w[..n + 32]) == Stripe(Stripes(s, w[..n]), w[n..n + 32])
  {
    hide Stripe;
    assert w[..n + 32] == w[..n] + w[n..n + 32];
    StripesAppend(s, w[..n], w[n..n + 32]);
    var x := w[n..n + 32];
    assert x[..32] == x && x[32..] == [];
  }

  function Zeros(n: nat): seq<bv8> { seq(n, _ => 0) }

  lemma {:induction false} ZeroWord(b: seq<bv8>, n: nat)
    requires n <= |b| && forall i :: 0 <= i < |b| ==> b[i] == 0
    ensures Word(b, n) == 0
    decreases n
  {
    if n > 0 { ZeroWord(b[1..], n - 1); }
  }

  /** What a lane becomes when it is fed zeros. */
  function ZeroLane(x: bv64): bv64 { RotateLeft(x, 31) * PRIME1 }

  /** A stripe of zeros, in the short form of `addZeros`. */
  lemma ZeroStripe(s: Lanes, b: seq<bv8>)
    requires |b| == 32 && forall i :: 0 <= i < |b| ==> b[i] == 0
    ensures Stripe(s, b) == Lanes(ZeroLane(s.s0), ZeroLane(s.s1), ZeroLane(s.s2), ZeroLane(s.s3))
  {
    ZeroWord(b, 8);
    ZeroWord(b[8..], 8);
    ZeroWord(b[16..], 8);
    ZeroWord(b[24..], 8);
    hide Word, ZeroLane, ProcessSingle;
    ZeroInput(s.s0);
    ZeroInput(s.s1);
    ZeroInput(s.s2);
    ZeroInput(s.s3);
  }

  lemma ZeroInput(x: bv64)
    ensures ProcessSingle(x, 0) == ZeroLane(x)
  {
    hide RotateLeft;
    calc {
      ProcessSingle(x, 0);
      RotateLeft(x + 0 * PRIME2, 31) * PRIME1;
      RotateLeft(x, 31) * PRIME1;
      ZeroLane(x);
    }
  }

  /** The loops over the remaining bytes. */
  method EatTail(acc: bv64, t: seq<bv8>) returns (a: bv64)
    ensures a == Consume(acc, t)
  {
    hide Word, Eat8, Eat4, Eat1;
    var p := 0;
    a := acc;
    while p + 8 <= |t|
      invariant 0 <= p <= |t| && Consume(a, t[p..]) == Consume(acc, t)
      decreases |t| - p
    {
      Rest(t, p, 8);
      a := Eat8(a, Word(t[p..], 8));
      p := p + 8;
    }
    if p + 4 <= |t| {
      Rest(t, p, 4);
      a := Eat4(a, Word(t[p..], 4));
      p := p + 4;
    }
    while p != |t|
      invariant 0 <= p <= |t| < p + 4 && Consume(a, t[p..]) == Consume(acc, t)
      decreases |t| - p
    {
      Rest(t, p, 1);
      a := Eat1(a, t[p]);
      p := p + 1;
    }
  }

  /** The loop over full stripes of zeros. */
  method ProcessZeros(s0: Lanes, length0: nat, ghost init: Lanes, ghost w: seq<bv8>) returns (s: Lanes, length: nat)
    requires length0 <= |w| && (|w| - length0) % 32 == 0 && forall i :: |w| - length0 <= i < |w| ==> w[i] == 0
    requires s0 == Stripes(init, w[..|w| - length0])
    ensures length < 32 && length <= length0 && (|w| - length) % 32 == 0
    ensures s == Stripes(init, w[..|w| - length])
  {
    hide Stripes, Stripe, ZeroLane;
    s, length := s0, length0;
    while length >= 32
      invariant length <= length0 && (|w| - length) % 32 == 0
      invariant s == Stripes(init, w[..|w| - length])
    {
      ghost var n := |w| - length;
      StripesNext(init, w, n);
      ZeroStripe(s, w[n..n + 32]);
      s := Lanes(ZeroLane(s.s0), ZeroLane(s.s1), ZeroLane(s.s2), ZeroLane(s.s3));
      length := length - 32;
    }
  }

  /** The loop over full stripes, from position `from` of the data on. */
  method ProcessFull(s0: Lanes, data: seq<bv8>, from: nat, ghost init: Lanes, ghost w: seq<bv8>, ghost n0: nat)
    returns (s: Lanes, p: nat)
    requires from <= |data| && n0 + |data| == |w| && w[n0..] == data && (n0 + from) % 32 == 0
    requires s0 == Stripes(init, w[..n0 + from])
    ensures from <= p <= |data| < p + 32 && (n0 + p) % 32 == 0
    ensures s == Stripes(init, w[..n0 + p])
  {
    hide Stripes, Stripe;
    s, p := s0, from;
    while p + 32 <= |data|
      invariant from <= p <= |data| && (n0 + p) % 32 == 0
      invariant s == Stripes(init, w[..n0 + p])
      decreases |data| - p
    {
      StripesNext(init, w, n0 + p);
      assert data[p..p + 32] == w[n0 + p..n0 + p + 32];
      s := Stripe(s, data[p..p + 32]);
      p := p + 32;
    }
  }

  // ------------------------------------------------------------------ the hasher

  class XXHash64 {
    var state: Lanes
    const buffer: array<bv8>
    var bufferSize: nat
    var totalLength: nat
    ghost var seed: bv64
    ghost var bytes: seq<bv8>

    /** The state is the fold over the full stripes of what has been added, and the buffer holds the rest. */
    ghost predicate Valid()
      reads this, buffer
    {
      && buffer.Length == 32 && bufferSize < 32
      && state == Stripes(Initial(seed), bytes)
      && buffer[..bufferSize] == Tail(bytes)
      && totalLength == |bytes| % UINT64_RANGE
    }

    constructor (seed: bv64)
      ensures Valid() && this.seed == seed && bytes == [] && fresh(buffer)
    {
      state := Initial(seed);
      buffer := new bv8[32](_ => 0);
      bufferSize, totalLength := 0, 0;
      this.seed, bytes := seed, [];
    }

    /** Adds a chunk of bytes. */
    method Add(data: seq<bv8>) returns (ok: bool)
      requires Valid() && bufferSize + |data| < UINT64_RANGE
      modifies this, buffer
      ensures Valid() && seed == old(seed) && bytes == old(bytes) + data
      ensures ok <==> data != []
    {
      hide Stripes, Stripe, Initial, Tail;
      ghost var w, n0 := bytes + data, |bytes|;
      if data == [] {
        assert w == bytes;
        return false;
      }
      LengthAdd(n0, |data|);
      totalLength := (totalLength + |data|) % UINT64_RANGE;
      bytes := w;
      ghost var q := n0 - bufferSize;
      FullPart(n0);
      Prefix(old(bytes), data, q);
      if (bufferSize + |data|) % UINT64_RANGE < 32 {
        StripesShort(Initial(seed), old(bytes), q);
        AddShort(data, n0, q);
        return true;
      }
      StripesShort(Initial(seed), old(bytes), q);
      AddStripes(data, n0, q);
      return true;
    }

    /** The part of `Add` for data that only go into the buffer. */
    method AddShort(data: seq<bv8>, ghost n0: nat, ghost q: nat)
      requires buffer.Length == 32 && bufferSize + |data| < 32
      requires n0 + |data| == |bytes| && q + bufferSize == n0 && q % 32 == 0
      requires bytes[n0..] == data && buffer[..bufferSize] == bytes[q..n0]
          && state == Stripes(Initial(seed), bytes[..q])
      modifies `bufferSize, buffer
      ensures bufferSize < 32 && state == Stripes(Initial(seed), bytes) && buffer[..bufferSize] == Tail(bytes)
    {
      hide Stripes, Stripe, Initial, Tail;
      StripesShort(Initial(seed), bytes, q);
      FillFrom(data, 0, |data|);
      assert data[0..0 + |data|] == data && bytes[q..] == bytes[q..n0] + bytes[n0..];
    }

    /** Completes the stripe that has begun in the buffer; `p` bytes of the data go into it. */
    method CompleteStripe(data: seq<bv8>, ghost n0: nat, ghost q: nat) returns (s: Lanes, p: nat)
      requires buffer.Length == 32 && bufferSize < 32 && bufferSize + |data| >= 32
      requires n0 + |data| == |bytes| && q + bufferSize == n0 && q % 32 == 0
      requires bytes[n0..] == data && buffer[..bufferSize] == bytes[q..n0]
          && state == Stripes(Initial(seed), bytes[..q])
      modifies `bufferSize, buffer
      ensures p <= |data| && (n0 + p) % 32 == 0 && s == Stripes(Initial(seed), bytes[..n0 + p])
    {
      hide Stripes, Stripe, Initial;
      s, p := state, 0;
      if bufferSize > 0 {
        p := 32 - bufferSize;
        FillFrom(data, 0, p);
        StripesNext(Initial(seed), bytes, q);
        FirstStripe(bytes, n0, q, data, p);
        assert buffer[..] == buffer[..bufferSize];
        s := Stripe(s, buffer[..]);
      }
    }

    /** The part of `Add` for data that complete a stripe. */
    method AddStripes(data: seq<bv8>, ghost n0: nat, ghost q: nat)
      requires buffer.Length == 32 && bufferSize < 32 && bufferSize + |data| >= 32
      requires n0 + |data| == |bytes| && q + bufferSize == n0 && q % 32 == 0
      requires bytes[n0..] == data && buffer[..bufferSize] == bytes[q..n0]
          && state == Stripes(Initial(seed), bytes[..q])
      modifies `bufferSize, `state, buffer
      ensures bufferSize < 32 && state == Stripes(Initial(seed), bytes) && buffer[..bufferSize] == Tail(bytes)
    {
      hide Stripes, Stripe, Initial, Tail;
      var s, p := CompleteStripe(data, n0, q);
      state, p := ProcessFull(s, data, p, Initial(seed), bytes, n0);
      StripesShort(Initial(seed), bytes, n0 + p);
      bufferSize := 0;
      FillFrom(data, p, |data| - p);
      assert data[p..] == bytes[n0 + p..];
      assert data[p..p + (|data| - p)] == data[p..];
    }

    /** Copies `n` bytes of `data` from position `p` behind what is in the buffer. */
    method FillFrom(data: seq<bv8>, p: nat, n: nat)
      requires p + n <= |data| && buffer.Length == 32 && bufferSize + n <= 32
      modifies `bufferSize, buffer
      ensures bufferSize == old(bufferSize) + n
      ensures buffer[..bufferSize] == old(buffer[..bufferSize]) + data[p..p + n]
    {
      var i := 0;
      while i < n
        invariant 0 <= i <= n && bufferSize == old(bufferSize) + i
        invariant buffer[..bufferSize] == old(buffer[..bufferSize]) + data[p..p + i]
      {
        buffer[bufferSize] := data[p + i];
        bufferSize := bufferSize + 1;
        i := i + 1;
      }
    }

    /** Writes `n` zeros behind what is in the buffer. */
    method FillZeros(n: nat)
      requires buffer.Length == 32 && bufferSize + n <= 32
      modifies `bufferSize, buffer
      ensures bufferSize == old(bufferSize) + n
      ensures buffer[..bufferSize] == old(buffer[..bufferSize]) + Zeros(n)
    {
      var i := 0;
      while i < n
        invariant 0 <= i <= n && bufferSize == old(bufferSize) + i
        invariant buffer[..bufferSize] == old(buffer[..bufferSize]) + Zeros(i)
      {
        buffer[bufferSize] := 0;
        bufferSize := bufferSize + 1;
        i := i + 1;
      }
    }

    /** Adds a chunk of zero bytes. The sum of sizes in the first test is a 64-bit sum; the
        caller must not let it wrap. */
    method AddZeros(length: nat) returns (ok: bool)
      requires Valid() && bufferSize + length < UINT64_RANGE
      modifies this, buffer
      ensures Valid() && seed == old(seed) && bytes == old(bytes) + Zeros(length)
      ensures ok <==> length != 0
    {
      hide Stripes, Stripe, Initial, Tail, Zeros;
      ghost var n0, data := |bytes|, Zeros(length);
      ZerosSize(length);
      ghost var w := bytes + data;
      if length == 0 {
        assert w == bytes;
        return false;
      }
      LengthAdd(n0, length);
      totalLength := (totalLength + length) % UINT64_RANGE;
      bytes := w;
      ghost var q := n0 - bufferSize;
      FullPart(n0);
      Prefix(old(bytes), data, q);
      if (bufferSize + length) % UINT64_RANGE < 32 {
        StripesShort(Initial(seed), old(bytes), q);
        AddShortZeros(length, n0, q);
        return true;
      }
      StripesShort(Initial(seed), old(bytes), q);
      AddZeroStripes(length, n0, q);
      return true;
    }

    /** The part of `AddZeros` for zeros that only go into the buffer. */
    method AddShortZeros(length: nat, ghost n0: nat, ghost q: nat)
      requires buffer.Length == 32 && bufferSize + length < 32
      requires n0 + length == |bytes| && q + bufferSize == n0 && q % 32 == 0
      requires bytes[n0..] == Zeros(length) && buffer[..bufferSize] == bytes[q..n0]
          && state == Stripes(Initial(seed), bytes[..q])
      modifies `bufferSize, buffer
      ensures bufferSize < 32 && state == Stripes(Initial(seed), bytes) && buffer[..bufferSize] == Tail(bytes)
    {
      hide Stripes, Stripe, Initial, Tail;
      StripesShort(Initial(seed), bytes, q);
      FillZeros(length);
      assert bytes[q..] == bytes[q..n0] + bytes[n0..];
    }

    /** Completes the stripe that has begun in the buffer; `length` zeros are left. */
    method CompleteWithZeros(length0: nat, ghost n0: nat, ghost q: nat) returns (s: Lanes, length: nat)
      requires buffer.Length == 32 && bufferSize < 32 && bufferSize + length0 >= 32
      requires n0 + length0 == |bytes| && q + bufferSize == n0 && q % 32 == 0
      requires bytes[n0..] == Zeros(length0) && buffer[..bufferSize] == bytes[q..n0]
          && state == Stripes(Initial(seed), bytes[..q])
      modifies `bufferSize, buffer
      ensures length <= length0 && (|bytes| - length) % 32 == 0
      ensures s == Stripes(Initial(seed), bytes[..|bytes| - length])
    {
      hide Stripes, Stripe, Initial;
      s, length := state, length0;
      if bufferSize > 0 {
        ghost var p := 32 - bufferSize;
        length := length - (32 - bufferSize);
        FillZeros(32 - bufferSize);
        StripesNext(Initial(seed), bytes, q);
        FirstStripe(bytes, n0, q, Zeros(length0), p);
        assert Zeros(length0)[..p] == Zeros(p);
        assert buffer[..] == buffer[..bufferSize];
        s := Stripe(s, buffer[..]);
      }
    }

    /** The part of `AddZeros` for zeros that complete a stripe. */
    method AddZeroStripes(length0: nat, ghost n0: nat, ghost q: nat)
      requires buffer.Length == 32 && bufferSize < 32 && bufferSize + length0 >= 32
      requires n0 + length0 == |bytes| && q + bufferSize == n0 && q % 32 == 0
      requires bytes[n0..] == Zeros(length0) && buffer[..bufferSize] == bytes[q..n0]
          && state == Stripes(Initial(seed), bytes[..q])
      modifies `bufferSize, `state, buffer
      ensures bufferSize < 32 && state == Stripes(Initial(seed), bytes) && buffer[..bufferSize] == Tail(bytes)
    {
      hide Stripes, Stripe, Initial, Tail;
      ghost var w := bytes;
      var s, length := CompleteWithZeros(length0, n0, q);
      assert forall i :: n0 <= i < |w| ==> w[i] == w[n0..][i - n0];
      s, length := ProcessZeros(s, length, Initial(seed), w);
      state := s;
      StripesShort(Initial(seed), w, |w| - length);
      bufferSize := 0;
      FillZeros(length);
      assert w[|w| - length..] == Zeros(length);
    }

    /** The hash of everything added so far. */
    method Hash() returns (result: bv64)
      requires Valid() && |bytes| < UINT64_RANGE
      ensures result == Xxh64(seed, bytes)
    {
      hide Stripes, Stripe, Initial, Tail, Word, Consume, Converge, Avalanche, ShortStart, AddLength;
      ghost var n := |bytes|;
      SmallLength(n);
      var acc;
      if totalLength >= 32 {
        acc := Converge(state);
      } else {
        ShortState(seed, bytes);
        acc := ShortStart(state.s2);
      }
      acc := AddLength(acc, totalLength);
      acc := EatTail(acc, buffer[..bufferSize]);
      result := Avalanche(acc);
    }
  }

  lemma SmallLength(n: nat)
    ensures n < UINT64_RANGE ==> n % UINT64_RANGE == n
    ensures n % UINT64_RANGE < UINT64_RANGE
  {
  }

  lemma Rest(t: seq<bv8>, p: nat, n: nat)
    requires p + n <= |t|
    ensures t[p..][n..] == t[p + n..]
  {
  }

  lemma ZerosSize(n: nat)
    ensures |Zeros(n)| == n
  {
  }

  /** Below one stripe the third accumulator is still the seed. */
  lemma ShortState(seed: bv64, b: seq<bv8>)
    ensures |b| < 32 ==> Stripes(Initial(seed), b).s2 == seed
  {
  }

  /** The test for the short way of `add` and `addZeros`, a sum of 64-bit words. */
  predicate ShortWay(bufferSize: nat, length: nat) { (bufferSize + length) % UINT64_RANGE < 32 }

  /** One of the `length` writes that go one by one behind the `bufferSize` bytes present does not
      hit the buffer. */
  ghost predicate Overruns(bufferSize: nat, length: nat) {
    exists i :: bufferSize <= i < bufferSize + length && BehindBuffer(i)
  }

  predicate BehindBuffer(i: nat) { i >= 32 }

  /** The short way writes behind the buffer if and only if the sum of its test wraps. */
  lemma ShortWayOverruns(bufferSize: nat, length: nat)
    requires bufferSize < 32 && length < UINT64_RANGE
    ensures ShortWay(bufferSize, length) && Overruns(bufferSize, length) <==> bufferSize + length >= UINT64_RANGE
  {
    if bufferSize + length >= UINT64_RANGE {
      assert BehindBuffer(32);
    }
  }

  /** With one byte present, the longest chunk is such a case: its test takes the sum for 0, the
      first 31 bytes fill the buffer, and the next write is behind it. */
  lemma WrappedLength()
    ensures ShortWay(1, UINT64_RANGE - 1) && !Overruns(1, 31) && Overruns(1, 32) && Overruns(1, UINT64_RANGE - 1)
  {
    assert BehindBuffer(32);
  }

  /** Two hashers that have seen the same bytes, in whatever pieces, cannot be told apart. */
  lemma SameBytesSameState(x: XXHash64, y: XXHash64)
    requires x.Valid() && y.Valid() && x.seed == y.seed && x.bytes == y.bytes
    ensures x.state == y.state && x.bufferSize == y.bufferSize && x.totalLength == y.totalLength
    ensures x.buffer[..x.bufferSize] == y.buffer[..y.bufferSize]
  {
    assert |x.buffer[..x.bufferSize]| == |y.buffer[..y.bufferSize]|;
  }

  /** The one-shot hash. */
  method HashOf(input: seq<bv8>, seed: bv64) returns (result: bv64)
    requires |input| < UINT64_RANGE
    ensures result == Xxh64(seed, input)
  {
    var hasher := new XXHash64(seed);
    var _ := hasher.Add(input);
    assert [] + input == input;
    result := hasher.Hash();
  }

  function Concat(chunks: seq<seq<bv8>>): seq<bv8> {
    if chunks == [] then [] else Concat(chunks[..|chunks| - 1]) + chunks[|chunks| - 1]
  }

  /** However an input is split into chunks, hashing it chunk by chunk gives the one-shot hash. */
  method HashChunks(chunks: seq<seq<bv8>>, seed: bv64) returns (result: bv64)
    requires |Concat(chunks)| < UINT64_RANGE
    ensures result == Xxh64(seed, Concat(chunks))
  {
    hide Xxh64;
    var hasher := new XXHash64(seed);
    for i := 0 to |chunks|
      invariant hasher.Valid() && hasher.seed == seed && hasher.bytes == Concat(chunks[..i])
      invariant fresh(hasher) && fresh(hasher.buffer)
    {
      ConcatNext(chunks, i);
      assert hasher.bufferSize == |hasher.buffer[..hasher.bufferSize]| == |hasher.bytes| % 32 <= |hasher.bytes|;
      var _ := hasher.Add(chunks[i]);
    }
    assert chunks[..|chunks|] == chunks;
    result := hasher.Hash();
  }

  lemma {:induction false} ConcatNext(chunks: seq<seq<bv8>>, i: nat)
    requires i < |chunks|
    ensures Concat(chunks[..i + 1]) == Concat(chunks[..i]) + chunks[i]
    ensures |Concat(chunks[..i])| + |chunks[i]| <= |Concat(chunks)|
    decreases |chunks| - i
  {
    assert chunks[..i + 1][..i] == chunks[..i];
    if i + 1 < |chunks| {
      ConcatNext(chunks, i + 1);
    } else {
      assert chunks[..i + 1] == chunks;
    }
  }

  lemma LengthAdd(a: nat, b: nat)
    ensures (a % UINT64_RANGE + b) % UINT64_RANGE == (a + b) % UINT64_RANGE
  {
  }

  lemma Prefix(a: seq<bv8>, b: seq<bv8>, q: nat)
    requires q <= |a|
    ensures (a + b)[..q] == a[..q] && (a + b)[q..] == a[q..] + b && (a + b)[..|a|] == a
  {
  }

  lemma FullPart(n: nat)
    ensures (n - n % 32) % 32 == 0
  {
  }

  lemma FirstStripe(w: seq<bv8>, n0: nat, q: nat, data: seq<bv8>, p: nat)
    requires q <= n0 <= |w| && w[n0..] == data && p <= |data| && n0 - q + p == 32
    ensures q + 32 <= |w| && w[q..q + 32] == w[q..n0] + data[..p]
  {
  }
}
