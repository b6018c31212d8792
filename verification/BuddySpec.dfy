/** The state of the buddy allocator between and inside its operations: all invariants
    together, and the steps from one such state to the next. */
module BuddySpec {
  import opened Bits
  import opened BuddyTree
  import opened FreeList
  import opened BuddyState
  import opened BuddySteps

  /** `b` is the bucket of the smallest blocks that hold `r` bytes; it is negative when
      even the largest block is too small. */
  predicate IsBucket(minLog: nat, maxLog: nat, b: int, r: nat)
    requires minLog <= maxLog
  {
    && b <= maxLog - minLog
    && r <= Pow2(maxLog - b)
    && (b < maxLog - minLog ==> Pow2(maxLog - b - 1) < r)
  }

  lemma BucketUnique(minLog: nat, maxLog: nat, b: int, c: int, r: nat)
    requires minLog <= maxLog && IsBucket(minLog, maxLog, b, r) && IsBucket(minLog, maxLog, c, r)
    ensures b == c
  {
    if b < c { Pow2Mono(maxLog - c, maxLog - b - 1); }
    if c < b { Pow2Mono(maxLog - b, maxLog - c - 1); }
  }

  lemma BucketFits(minLog: nat, maxLog: nat, b: int, r: nat)
    requires minLog <= maxLog && IsBucket(minLog, maxLog, b, r) && r <= Pow2(maxLog)
    ensures b >= 0
  {
    if b < 0 { Pow2Mono(maxLog, maxLog - b - 1); }
  }

  ghost predicate HeadersOk(g: Geometry, m: Memory, live: map<Node, nat>)
    requires g.Valid()
  {
    forall u :: u in live && u.b <= g.Depth() ==>
      At(m, g.Addr(u)) == live[u] && IsBucket(g.minLog, g.maxLog, u.b, live[u] + HEADER_SIZE)
  }

  ghost predicate LiveBelow(g: Geometry, live: map<Node, nat>, top: nat)
    requires g.Valid()
  {
    forall u :: u in live && u.b <= g.Depth() ==> g.Addr(u) + g.Size(u.b) <= top
  }

  /** Every invariant of the allocator: the tree, headers that hold the requested sizes in
      blocks of the fitting bucket, and all live bytes and list links below `top`. */
  ghost predicate Good(g: Geometry, x: Rep, live: map<Node, nat>, top: nat) {
    && Consistent(g, x, live.Keys)
    && HeadersOk(g, x.mem, live)
    && LiveBelow(g, live, top)
    && LinksBelow(g, x, top)
  }

  /** The same while block `n` is neither listed nor handed out. */
  ghost predicate Pending(g: Geometry, x: Rep, live: map<Node, nat>, n: Node, top: nat) {
    && n !in live
    && Consistent(g, x, live.Keys + {n})
    && HeadersOk(g, x.mem, live)
    && LiveBelow(g, live, top)
    && LinksBelow(g, x, top)
  }

  lemma LimitBound(g: Geometry, x: Rep, live: set<Node>)
    requires Consistent(g, x, live)
    ensures g.Valid() && x.limit <= g.Depth() && |x.free| == g.Depth() + 1 && |x.bits| == Pow2(g.Depth())
    ensures RingsOk(g, x.limit, x.free, x.mem)
  {
  }

  lemma GoodLimits(g: Geometry, x: Rep, live: map<Node, nat>, top: nat)
    requires Good(g, x, live, top)
    ensures g.Valid() && x.limit <= g.Depth() && |x.free| == g.Depth() + 1 && |x.bits| == Pow2(g.Depth())
    ensures RingsOk(g, x.limit, x.free, x.mem)
  {
  }

  lemma PendingLimits(g: Geometry, x: Rep, live: map<Node, nat>, n: Node, top: nat)
    requires Pending(g, x, live, n, top)
    ensures g.Valid() && x.limit <= g.Depth() && |x.free| == g.Depth() + 1 && |x.bits| == Pow2(g.Depth())
  {
  }

  lemma PendingNew(g: Geometry, x: Rep, live: map<Node, nat>, n: Node, top: nat)
    requires Pending(g, x, live, n, top)
    ensures g.Valid() && n !in live && x.limit <= n.b <= g.Depth() && (n.b == 0 ==> n.k == 0)
  {
    LiveClear(g, x, live.Keys + {n}, n);
  }

  lemma GoodMax(g: Geometry, x: Rep, live: map<Node, nat>, top: nat, top': nat)
    requires Good(g, x, live, top) && top <= top'
    ensures Good(g, x, live, top')
  {
  }

  lemma HeadersKept(g: Geometry, m: Memory, m': Memory, live: map<Node, nat>)
    requires g.Valid() && HeadersOk(g, m, live) && SameBlocks(g, m, m', live.Keys)
    ensures HeadersOk(g, m', live)
  {
    forall u | u in live && u.b <= g.Depth()
      ensures At(m', g.Addr(u)) == At(m, g.Addr(u))
    {
      assert SameBlock(g, m, m', u) && Inside(g, u, g.Addr(u));
    }
  }

  lemma LinksFlipped(g: Geometry, x: Rep, n: Node, top: nat)
    requires g.Valid() && LinksBelow(g, x, top) && (n.b > 0 ==> Index(Parent(n)) < |x.bits|)
    ensures LinksBelow(g, FlippedAbove(x, n), top)
  {
  }

  // ------------------------------------------------------------------ growing

  function GrownEmpty(g: Geometry, x: Rep): Rep
    requires g.Valid() && 0 < x.limit <= g.Depth() && |x.free| == g.Depth() + 1 && x.free[x.limit] == [0]
  {
    PushedRep(g, Raised(g, Popped(g, x, Node(x.limit, 0), 0)), Node(x.limit - 1, 0))
  }

  lemma GrowEmptyGood(g: Geometry, x: Rep, live: map<Node, nat>, top: nat)
    requires Good(g, x, live, top) && live == map[] && x.limit > 0
    ensures x.limit <= g.Depth() && |x.free| == g.Depth() + 1 && x.free[x.limit] == [0]
    ensures Good(g, GrownEmpty(g, x), live, top)
  {
    hide RingsOk, ListsOk, BitsOk, LinksBelow;
    var n := Node(x.limit, 0);
    assert live.Keys == {};
    GrowEmptyStep(g, x);
    RootLink(g, x, top);
    LinksPopped(g, x, n, 0, top);
    LinksRaised(g, Popped(g, x, n, 0), top);
    LinksPushed(g, Raised(g, Popped(g, x, n, 0)), Node(x.limit - 1, 0), top);
  }

  lemma RootLink(g: Geometry, x: Rep, top: nat)
    requires g.Valid() && LinksBelow(g, x, top) && x.limit <= g.Depth() && |x.free| == g.Depth() + 1
        && x.free[x.limit] == [0]
    ensures g.base + LINK_SIZE <= top
    ensures forall b: nat :: b <= g.Depth() ==> g.Addr(Node(b, 0)) == g.base
  {
    assert Listed(x.limit, x.free, Node(x.limit, 0));
  }

  function GrownUsed(g: Geometry, x: Rep): Rep
    requires g.Valid() && 0 < x.limit <= g.Depth() && |x.free| == g.Depth() + 1
    requires x.limit > 1 ==> Index(Node(x.limit - 2, 0)) < |x.bits|
  {
    FlippedAbove(Raised(g, PushedRep(g, x, Node(x.limit, 1))), Node(x.limit - 1, 0))
  }

  lemma GrowUsedGood(g: Geometry, x: Rep, live: map<Node, nat>, top: nat)
    requires Good(g, x, live, top) && live != map[] && x.limit > 0
    ensures x.limit <= g.Depth() && |x.free| == g.Depth() + 1
    ensures x.limit > 1 ==> Index(Node(x.limit - 2, 0)) < |x.bits|
    ensures g.Addr(Node(x.limit, 1)) + LINK_SIZE <= top ==> Good(g, GrownUsed(g, x), live, top)
    ensures SameBlocks(g, x.mem, GrownUsed(g, x).mem, live.Keys)
  {
    hide RingsOk, ListsOk, BitsOk, LinksBelow, HeadersOk, SameBlocks, LiveBelow, Used, Proper;
    var n := Node(x.limit, 1);
    RootInUse(g, x, live.Keys);
    assert live.Keys != {};
    GrowUsedStep(g, x, live.Keys);
    if g.Addr(n) + LINK_SIZE <= top {
      LinksPushed(g, x, n, top);
      LinksRaised(g, PushedRep(g, x, n), top);
      LinksFlipped(g, Raised(g, PushedRep(g, x, n)), Node(x.limit - 1, 0), top);
      HeadersKept(g, x.mem, GrownUsed(g, x).mem, live);
    }
  }

  /** What the bit above the root tells. */
  lemma RootInUse(g: Geometry, x: Rep, live: set<Node>)
    requires Consistent(g, x, live) && x.limit > 0
    ensures Used(live, Node(x.limit, 0)) <==> live != {}
    ensures Index(Node(x.limit - 1, 0)) < |x.bits|
    ensures x.bits[Index(Node(x.limit - 1, 0))] <==> live != {}
  {
    RootBit(g.Depth(), x.limit, live);
    Pow2Mono(0, x.limit - 1);
    assert Split(x.limit, live, Node(x.limit - 1, 0)) || !Split(x.limit, live, Node(x.limit - 1, 0));
  }

  // ------------------------------------------------------------------ allocating

  lemma PutBackGood(g: Geometry, x: Rep, live: map<Node, nat>, n: Node, top: nat)
    requires Good(g, x, live, top)
    requires x.limit <= n.b <= g.Depth() && n.b < |x.free| && x.free[n.b] != [] && n.k == x.free[n.b][|x.free[n.b]| - 1]
    ensures var y := PushedRep(g, Popped(g, x, n, |x.free[n.b]| - 1), n);
            Good(g, y, live, top) && y.free == x.free && SameBlocks(g, x.mem, y.mem, live.Keys)
  {
    hide RingsOk, ListsOk, BitsOk, LinksBelow, HeadersOk, SameBlocks, LiveBelow, Proper;
    var j := |x.free[n.b]| - 1;
    PutBackStep(g, x, live.Keys, n);
    ListedLink(g, x, n, top);
    LinksPopped(g, x, n, j, top);
    LinksPushed(g, Popped(g, x, n, j), n, top);
    HeadersKept(g, x.mem, PushedRep(g, Popped(g, x, n, j), n).mem, live);
  }

  lemma ListedLink(g: Geometry, x: Rep, n: Node, top: nat)
    requires g.Valid() && LinksBelow(g, x, top) && Listed(x.limit, x.free, n) && n.b <= g.Depth()
    ensures g.Addr(n) + LINK_SIZE <= top
  {
  }

  lemma TakePending(g: Geometry, x: Rep, live: map<Node, nat>, n: Node, j: nat, top: nat)
    requires Good(g, x, live, top)
    requires x.limit <= n.b <= g.Depth() && n.b < |x.free| && j < |x.free[n.b]| && x.free[n.b][j] == n.k
    ensures n.b > 0 ==> Index(Parent(n)) < |x.bits|
    ensures Pending(g, FlippedAbove(Popped(g, x, n, j), n), live, n, top)
    ensures SameBlocks(g, x.mem, Popped(g, x, n, j).mem, live.Keys)
  {
    hide RingsOk, ListsOk, BitsOk, LinksBelow, HeadersOk, SameBlocks, LiveBelow, Proper, Free;
    TakeStep(g, x, live.Keys, n, j);
    PoppedRings(g, x, live.Keys, n, j);
    LinksPopped(g, x, n, j, top);
    LinksFlipped(g, Popped(g, x, n, j), n, top);
    HeadersKept(g, x.mem, Popped(g, x, n, j).mem, live);
  }

  function SplitRep(g: Geometry, x: Rep, n: Node): Rep
    requires g.Valid() && n.b < g.Depth() && |x.free| == g.Depth() + 1 && Index(n) < |x.bits|
  {
    PushedRep(g, x.(bits := Flip(x.bits, Index(n))), Right(n))
  }

  lemma SplitPending(g: Geometry, x: Rep, live: map<Node, nat>, n: Node, top: nat)
    requires Pending(g, x, live, n, top) && n.b < g.Depth() && g.Addr(Right(n)) + LINK_SIZE <= top
    ensures |x.free| == g.Depth() + 1 && Index(n) < |x.bits|
    ensures Pending(g, SplitRep(g, x, n), live, Left(n), top)
    ensures SameBlocks(g, x.mem, SplitRep(g, x, n).mem, live.Keys)
  {
    hide RingsOk, ListsOk, BitsOk, LinksBelow, HeadersOk, SameBlocks, LiveBelow, Proper, InRoot;
    var all := live.Keys + {n};
    LimitBound(g, x, all);
    SplitStep(g, x, all, n);
    LinksBits(g, x, Flip(x.bits, Index(n)), top);
    LinksPushed(g, x.(bits := Flip(x.bits, Index(n))), Right(n), top);
    assert all - {n} == live.Keys && all - {n} + {Left(n)} == live.Keys + {Left(n)};
    HeadersKept(g, x.mem, SplitRep(g, x, n).mem, live);
  }

  lemma LinksBits(g: Geometry, x: Rep, bits: seq<bool>, top: nat)
    requires g.Valid() && LinksBelow(g, x, top)
    ensures LinksBelow(g, x.(bits := bits), top)
  {
  }

  /** Writing the header hands the block out. */
  lemma HandOut(g: Geometry, x: Rep, live: map<Node, nat>, n: Node, v: nat, top: nat)
    requires Pending(g, x, live, n, top) && g.Valid() && n.b <= g.Depth() && g.Addr(n) + g.Size(n.b) <= top
    requires IsBucket(g.minLog, g.maxLog, n.b, v + HEADER_SIZE)
    ensures Good(g, x.(mem := x.mem[g.Addr(n) := v]), live[n := v], top)
    ensures SameBlocks(g, x.mem, x.mem[g.Addr(n) := v], live.Keys)
  {
    hide Consistent, IsBucket, LinksBelow, SameBlocks;
    var all := live.Keys + {n};
    LimitBound(g, x, all);
    HeaderStep(g, x, all, n, v);
    assert live[n := v].Keys == all && all - {n} == live.Keys;
    HeadersKept(g, x.mem, x.mem[g.Addr(n) := v], live);
    LinksMem(g, x, x.mem[g.Addr(n) := v], top);
  }

  lemma LinksMem(g: Geometry, x: Rep, m: Memory, top: nat)
    requires g.Valid() && LinksBelow(g, x, top)
    ensures LinksBelow(g, x.(mem := m), top)
  {
  }

  /** Rewriting the header of a live block within its bucket. */
  lemma Rewrite(g: Geometry, x: Rep, live: map<Node, nat>, n: Node, v: nat, top: nat)
    requires Good(g, x, live, top) && g.Valid() && n in live && n.b <= g.Depth()
    requires IsBucket(g.minLog, g.maxLog, n.b, v + HEADER_SIZE)
    ensures Good(g, x.(mem := x.mem[g.Addr(n) := v]), live[n := v], top)
  {
    hide Consistent, IsBucket, LinksBelow;
    LimitBound(g, x, live.Keys);
    HeaderStep(g, x, live.Keys, n, v);
    assert live[n := v].Keys == live.Keys;
    LinksMem(g, x, x.mem[g.Addr(n) := v], top);
  }

  // ------------------------------------------------------------------ freeing

  /** A live block given back becomes pending. */
  lemma GiveBack(g: Geometry, x: Rep, live: map<Node, nat>, n: Node, top: nat)
    requires Good(g, x, live, top) && n in live
    ensures n.b <= g.Depth() && x.limit <= n.b && At(x.mem, g.Addr(n)) == live[n]
    ensures IsBucket(g.minLog, g.maxLog, n.b, live[n] + HEADER_SIZE)
    ensures Pending(g, x, live - {n}, n, top) && g.Addr(n) + LINK_SIZE <= top
  {
    LiveClear(g, x, live.Keys, n);
    SizeSixteen(g, n.b);
    hide Consistent, IsBucket;
    assert (live - {n}).Keys + {n} == live.Keys;
  }

  /** After the flip the parent's bit tells whether the buddy is in use. */
  lemma FlippedBit(g: Geometry, x: Rep, live: map<Node, nat>, n: Node, top: nat)
    requires Pending(g, x, live, n, top) && n.b > 0
    ensures n.b <= g.Depth() && x.limit <= n.b && Index(Parent(n)) < |x.bits|
    ensures n.b > x.limit ==> (!x.bits[Index(Parent(n))] <==> Used(live.Keys + {n}, Sibling(n)))
    ensures n.b == x.limit ==> x.bits[Index(Parent(n))]
  {
    hide RingsOk, ListsOk, BitsOk, LinksBelow, HeadersOk, LiveBelow, Overlap, Clear, Used, Split, Index, Pow2, Proper;
    var all, p := live.Keys + {n}, Parent(n);
    LiveClear(g, x, all, n);
    ParentBound(g, x, all, n);
    BitAt(g.Depth(), x.limit, all, x.bits, p);
    PairSplit(x.limit, all, n);
    if n.b == x.limit {
      RootBit(g.Depth(), x.limit, all);
    }
    LimitBound(g, x, all);
  }

  lemma BitAt(d: nat, l: nat, live: set<Node>, bits: seq<bool>, p: Node)
    requires BitsOk(d, l, live, bits) && p.b < d && p.k < Pow2(p.b)
    ensures Index(p) < |bits| && bits[Index(p)] == Split(l, live, p)
  {
    assert Split(l, live, p) || !Split(l, live, p);
  }

  /** The bit above a live block. */
  lemma PairSplit(l: nat, live: set<Node>, n: Node)
    requires n in live && n.b > 0 && InRoot(l, n)
    ensures n.b > l ==> (Split(l, live, Parent(n)) <==> !Used(live, Sibling(n)))
    ensures n.b == l ==> n == Node(l, 0) && Used(live, n)
  {
    var p := Parent(n);
    assert {n, Sibling(n)} == {Left(p), Right(p)};
    assert Used(live, n);
  }

  function MergedRep(g: Geometry, x: Rep, n: Node, j: nat): Rep
    requires g.Valid() && 0 < n.b <= g.Depth() && n.b < |x.free| && j < |x.free[n.b]| && Index(Parent(n)) < |x.bits|
  {
    Popped(g, FlippedAbove(x, n), Sibling(n), j)
  }

  lemma MergePending(g: Geometry, x: Rep, live: map<Node, nat>, n: Node, j: nat, top: nat)
    requires Pending(g, x, live, n, top) && x.limit < n.b <= g.Depth() && !Used(live.Keys + {n}, Sibling(n))
    requires n.b < |x.free| && j < |x.free[n.b]| && x.free[n.b][j] == Sibling(n).k
    requires Index(Parent(n)) < |x.bits| && g.Addr(n) + LINK_SIZE <= top
    ensures Pending(g, MergedRep(g, x, n, j), live, Parent(n), top)
    ensures SameBlocks(g, x.mem, MergedRep(g, x, n, j).mem, live.Keys)
    ensures g.Addr(Parent(n)) + LINK_SIZE <= top
  {
    hide RingsOk, ListsOk, BitsOk, LinksBelow, HeadersOk, SameBlocks, LiveBelow, Proper, Used;
    var all, p := live.Keys + {n}, Parent(n);
    assert Listed(x.limit, x.free, Sibling(n));
    MergeStep(g, x, all, n, j);
    assert all - {n} + {p} == live.Keys + {p};
    LinksFlipped(g, x, n, top);
    LinksPopped(g, FlippedAbove(x, n), Sibling(n), j, top);
    SameFewer(g, x.mem, Removed(x.mem, g.Addr(Sibling(n))), all, live.Keys);
    HeadersKept(g, x.mem, Removed(x.mem, g.Addr(Sibling(n))), live);
    ListedLink(g, x, Sibling(n), top);
    ParentAddr(g, n);
  }

  /** Where the unused buddy of a pending block stands on its list. */
  lemma SiblingListed(g: Geometry, x: Rep, live: map<Node, nat>, n: Node, top: nat) returns (j: nat)
    requires Pending(g, x, live, n, top) && x.limit < n.b && !Used(live.Keys + {n}, Sibling(n))
    ensures n.b < |x.free| && j < |x.free[n.b]| && x.free[n.b][j] == Sibling(n).k
  {
    BuddyListed(g, x, live.Keys + {n}, n);
    j := ListPosition(x.free, x.limit, Sibling(n));
  }

  lemma ParentAddr(g: Geometry, n: Node)
    requires g.Valid() && 0 < n.b <= g.Depth()
    ensures g.Addr(Parent(n)) == if n.k % 2 == 0 then g.Addr(n) else g.Addr(Sibling(n))
  {
    AddrParent(g, n);
    AddrParent(g, Sibling(n));
  }

  lemma SameSelf(g: Geometry, m: Memory, m': Memory, live: set<Node>)
    requires g.minLog <= g.maxLog && (m == m' || live == {})
    ensures SameBlocks(g, m, m', live)
  {
  }

  lemma SameTrans(g: Geometry, m: Memory, m': Memory, m'': Memory, live: set<Node>)
    requires g.minLog <= g.maxLog && SameBlocks(g, m, m', live) && SameBlocks(g, m', m'', live)
    ensures SameBlocks(g, m, m'', live)
  {
    forall u | u in live && u.b <= g.Depth()
      ensures SameBlock(g, m, m'', u)
    {
      assert SameBlock(g, m, m', u) && SameBlock(g, m', m'', u);
    }
  }

  lemma SameFewer(g: Geometry, m: Memory, m': Memory, more: set<Node>, fewer: set<Node>)
    requires g.Valid() && SameBlocks(g, m, m', more) && fewer <= more
    ensures SameBlocks(g, m, m', fewer)
  {
  }

  /** A pending block that cannot be merged goes onto its list. */
  lemma Release(g: Geometry, x: Rep, live: map<Node, nat>, n: Node, top: nat)
    requires Pending(g, x, live, n, top) && g.Valid() && n.b <= g.Depth() && g.Addr(n) + LINK_SIZE <= top
    requires n.b > x.limit ==> Used(live.Keys + {n}, Sibling(n))
    ensures |x.free| == g.Depth() + 1 && (n.b > 0 ==> Index(Parent(n)) < |x.bits|)
    ensures Good(g, PushedRep(g, FlippedAbove(x, n), n), live, top)
    ensures SameBlocks(g, x.mem, PushedRep(g, FlippedAbove(x, n), n).mem, live.Keys)
  {
    hide RingsOk, ListsOk, BitsOk, LinksBelow, HeadersOk, SameBlocks, LiveBelow, Proper, Used;
    var all := live.Keys + {n};
    LimitBound(g, x, all);
    ReleaseStep(g, x, all, n);
    assert all - {n} == live.Keys;
    LinksFlipped(g, x, n, top);
    LinksPushed(g, FlippedAbove(x, n), n, top);
    HeadersKept(g, x.mem, PushedRep(g, FlippedAbove(x, n), n).mem, live);
  }
}
