/** The memory behind the buddy allocator: what reserving it answers, how far it has to reach
    for a block, and when the limit on its end stands in the way. */
module BuddyReserve {
  import opened Bits
  import opened BuddyTree
  import opened FreeList
  import opened BuddyState
  import opened BuddySteps
  import opened BuddySpec

  /** What RESERVE answers: where the new memory starts, and the new end of all memory. */
  datatype Reservation = Refused | Granted(start: nat, end: nat)

  /** The answer to every call: of its number, the size asked for and the end so far. */
  type Environment = (nat, nat, nat) -> Reservation

  /** Memory that is granted lies behind the old end and has at least the size asked for. */
  ghost predicate Supplies(reserve: Environment) {
    forall i: nat, size: nat, end: nat :: reserve(i, size, end).Granted? ==>
      var a := reserve(i, size, end);
      a.start > 0 && a.end >= end + size && a.end >= a.start + size
  }

  // ------------------------------------------------------------------ the first reservation

  /** Memory for the list heads and the links of the first block. */
  function InitialSize(minLog: nat, maxLog: nat): nat
    requires minLog <= maxLog
  {
    (maxLog - minLog + 2) * LINK_SIZE + 32
  }

  /** The start of the first block behind the list heads, aligned so that payloads are. */
  function FirstBlock(minLog: nat, maxLog: nat, start: nat): (r: nat)
    requires minLog <= maxLog
    ensures r % 16 == 8 && start + LINK_SIZE * (maxLog - minLog + 1) <= r
    ensures r + LINK_SIZE <= start + InitialSize(minLog, maxLog)
  {
    (start + LINK_SIZE * (maxLog - minLog + 1) + 15) / 16 * 16 + 16 - HEADER_SIZE
  }

  // ------------------------------------------------------------------ ends

  /** Where the memory has to reach for splitting `n` down to bucket `c`, or for all of it. */
  function WantedEnd(g: Geometry, n: Node, c: nat): (r: nat)
    requires g.minLog <= g.maxLog && n.b <= c && n.b <= g.Depth()
    ensures r >= g.base
  {
    g.Addr(n) + if n.b < c then g.Size(n.b) / 2 + LINK_SIZE else g.Size(n.b)
  }

  lemma WantedWhole(g: Geometry, n: Node)
    requires g.minLog <= g.maxLog && n.b <= g.Depth()
    ensures WantedEnd(g, n, n.b) == g.Addr(n) + g.Size(n.b)
  {
  }

  /** The right half can be linked, and splitting the left half needs no more. */
  lemma RightLink(g: Geometry, n: Node, c: nat, top: nat)
    requires g.Valid() && n.b < c <= g.Depth() && WantedEnd(g, n, c) <= top
    ensures g.Addr(Right(n)) + LINK_SIZE <= top
    ensures g.Addr(Left(n)) == g.Addr(n) && WantedEnd(g, Left(n), c) <= top
  {
    hide Pow2;
    AddrParent(g, Left(n));
    AddrParent(g, Right(n));
    SizeHalf(g, n.b);
    if n.b + 1 < c { SizeHalf(g, n.b + 1); }
  }

  /** `update_max_ptr` asks only for ends before `base_ptr` + MAX_ALLOC. */
  predicate Limited(g: Geometry, end: nat)
    requires g.base <= end
  {
    end - g.base >= Pow2(g.maxLog)
  }

  /** The limit stops exactly the last block of a bucket: wanted whole, or split when its
      right half has room for nothing but the links. */
  lemma LimitExact(g: Geometry, n: Node, c: nat)
    requires g.Valid() && n.b <= c <= g.Depth() && n.k < Pow2(n.b)
    ensures Limited(g, WantedEnd(g, n, c)) <==> n.k == Pow2(n.b) - 1 && (n.b == c || g.Size(n.b) == 32)
  {
    hide Pow2;
    var s := g.Size(n.b);
    Pow2Add(n.b, g.maxLog - n.b);
    if n.b < c {
      SizeSixteen(g, n.b + 1);
      SizeHalf(g, n.b);
    }
    LastOf(n.k, Pow2(n.b), s, if n.b < c then s / 2 + LINK_SIZE else s);
  }

  /** In a row of `p` blocks only the last, and only all of it, reaches the end. */
  lemma LastOf(k: nat, p: nat, s: nat, w: nat)
    requires k < p && 0 < w <= s
    ensures k * s + w >= p * s <==> k == p - 1 && w == s
  {
    assert p * s == (p - 1) * s + s;
    if k < p - 1 {
      MulMono(k + 1, p - 1, s);
      assert (k + 1) * s == k * s + s;
    }
  }

  /** Doubling a root in use is stopped by the limit only in the smallest tree of all. */
  lemma GrowLimit(g: Geometry, l: nat)
    requires g.Valid() && 0 < l <= g.Depth()
    ensures Limited(g, g.Addr(Node(l, 1)) + LINK_SIZE) <==> g.maxLog == 5
  {
    assert Pow2(5) == 32;
    hide Pow2;
    SizeHalf(g, l - 1);
    SizeSixteen(g, l);
    Pow2Mono(g.maxLog - l, g.maxLog - 1);
    HalfScale(1, g.maxLog);
    if g.maxLog > 5 { Pow2Mono(5, g.maxLog - 1); }
  }

  // ------------------------------------------------------------------ the choice of a block

  /** No block is listed in the buckets from `lo` to `hi`. */
  ghost predicate NoneIn(free: seq<seq<nat>>, lo: int, hi: int) {
    forall b :: 0 <= b < |free| && lo <= b <= hi ==> free[b] == []
  }

  lemma NoneJoined(free: seq<seq<nat>>, lo: int, mid: int, hi: int)
    ensures NoneIn(free, hi + 1, hi)
    ensures NoneIn(free, lo, mid) && NoneIn(free, mid + 1, hi) ==> NoneIn(free, lo, hi)
    ensures 0 <= mid < |free| && free[mid] == [] && NoneIn(free, mid + 1, hi) ==> NoneIn(free, mid, hi)
  {
  }

  /** `n` is the block at the back of the list of the smallest blocks that are free and not
      too small for bucket `c`. */
  ghost predicate BestIn(x: Rep, n: Node, c: int) {
    AtBack(x, n) && n.b <= c && NoneIn(x.free, n.b + 1, c)
  }

  predicate AtBack(x: Rep, n: Node) {
    x.limit <= n.b < |x.free| && x.free[n.b] != [] && n.k == x.free[n.b][|x.free[n.b]| - 1]
  }

  /** The block that is split down to bucket `c`: the best one under the root; if there is none,
      the right half of the doubled root; or if the root is too small, the root grown to that
      bucket, and if that is in use, its right sibling. */
  ghost predicate ChosenIn(x: Rep, idle: bool, n: Node, c: int) {
    if x.limit > c then
      n.b == c && n.k == (if idle then 0 else 1)
    else if NoneIn(x.free, x.limit, c) then
      n == Node(x.limit, 1)
    else
      BestIn(x, n, c)
  }

  /** How one round of the search finds block `n` in bucket `b`: at once, or as the right half of
      the doubled root, or after growing the root to that bucket. */
  ghost predicate Reached(x: Rep, y: Rep, idle: bool, n: Node, b: nat) {
    && n.b == b && AtBack(y, n)
    && (x.limit <= b < |x.free| && x.free[b] != [] ==> y == x)
    && (x.limit <= b < |x.free| && x.free[b] == [] ==> b == x.limit && n.k == 1)
    && (x.limit <= b ==> forall k :: b < k < |y.free| ==> k < |x.free| && y.free[k] == x.free[k])
    && (b < x.limit ==> n.k == if idle then 0 else 1)
  }

  /** Finding a block in bucket `b`, after nothing was found from there to bucket `c`. */
  lemma ChosenHere(x: Rep, y: Rep, idle: bool, n: Node, b: nat, c: nat)
    requires Reached(x, y, idle, n, b) && b <= c < |x.free|
    requires if x.limit > c then b == c else x.limit <= b
    requires NoneIn(x.free, b + 1, c)
    ensures ChosenIn(x, idle, n, c) && NoneIn(y.free, b + 1, c) && AtBack(y, n) && n.b == b
    ensures x.limit <= c && !NoneIn(x.free, x.limit, c) ==> BestIn(x, n, c) && y == x
  {
    if x.limit <= c && x.free[b] != [] {
      assert !NoneIn(x.free, x.limit, c);
    }
  }

  /** The lists after splitting `n` down to bucket `c`: the right half of every split block at
      the back of its list. */
  function HalvesListed(free: seq<seq<nat>>, n: Node, c: int): (r: seq<seq<nat>>)
    requires n.b < |free| && c < |free|
    ensures |r| == |free|
    decreases c - n.b
  {
    if n.b >= c then free else HalvesListed(Append(free, Right(n)), Left(n), c)
  }

  /** The lists after taking block `n` from the back of its list and splitting it. */
  function SplitLists(free: seq<seq<nat>>, n: Node, c: int): seq<seq<nat>>
    requires n.b < |free| && free[n.b] != [] && c < |free|
  {
    HalvesListed(Drop(free, n.b, |free[n.b]| - 1), n, c)
  }

  // ------------------------------------------------------------------ the whole range

  /** `r` bytes with the header only fit into the one block of bucket 0. */
  predicate WholeRange(maxLog: nat, r: nat) { r <= Pow2(maxLog) < 2 * r }

  lemma WholeBucket(minLog: nat, maxLog: nat, b: int, r: nat)
    requires minLog <= maxLog && IsBucket(minLog, maxLog, b, r) && WholeRange(maxLog, r) && b >= 0
    ensures b == 0
  {
    if b > 0 {
      Pow2Mono(maxLog - b, maxLog - 1);
      HalfScale(1, maxLog);
    }
  }

  /** A live block of bucket 0 is alone, and memory reaches to its end. */
  lemma WholeTaken(g: Geometry, x: Rep, live: map<Node, nat>, top: nat, u: Node)
    requires Good(g, x, live, top) && u in live && u.b == 0
    ensures live.Keys == {u} && g.base + Pow2(g.maxLog) <= top
  {
    hide BitsOk, ListsOk, RingsOk, HeadersOk, LinksBelow, Pow2;
    LiveClear(g, x, live.Keys, u);
    forall v | v in live
      ensures v == u
    {
      LiveClear(g, x, live.Keys, v);
      UpUp(v.k, v.b - x.limit, x.limit);
      assert v != u ==> !Overlap(u, v);
    }
  }

  /** A listed block of bucket 0 is the whole range. */
  lemma WholeListed(g: Geometry, x: Rep, live: map<Node, nat>, top: nat, n: Node)
    requires Good(g, x, live, top) && Listed(x.limit, x.free, n) && n.b == 0
    ensures n == Node(0, 0) && g.Addr(n) == g.base && WantedEnd(g, n, 0) == g.base + Pow2(g.maxLog)
  {
    hide BitsOk, RingsOk, HeadersOk, LinksBelow, LiveBelow, Pow2;
    assert Free(x.limit, live.Keys, n);
  }

  /** Handing out a free block of bucket 0 would take memory beyond the limit. */
  lemma EndOfRange(g: Geometry, x: Rep, live: map<Node, nat>, top: nat, n: Node)
    requires Good(g, x, live, top) && AtBack(x, n) && n.b <= g.Depth()
    ensures n.b == 0 ==> n.k == 0 && WantedEnd(g, n, 0) == g.base + Pow2(g.maxLog) && Limited(g, WantedEnd(g, n, 0))
  {
    hide Good, Pow2;
    if n.b == 0 { WholeListed(g, x, live, top, n); }
  }
}
