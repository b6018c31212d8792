/** The buddy allocator itself: its fields, and `malloc`, `resize` and `free` on them. */
module BuddyAllocator {
  import opened Bits
  import opened BuddyTree
  import opened FreeList
  import opened BuddyState
  import opened BuddySteps
  import opened BuddySpec
  import opened BuddyReserve

  const MAX_REQUEST: nat := 0x8000_0000_0000_0000  // the largest power of two in a size_t

  class Buddy {
    const minLog: nat
    const maxLog: nat
    const reserve: Environment       // RESERVE
    var buckets: nat        // address of the list heads
    var limit: nat          // bucket_limit
    var bits: seq<bool>     // node_is_split
    var base: nat           // base_ptr
    var max: nat            // max_ptr
    var mem: Memory         // the words of the reserved memory
    var asked: nat          // calls of RESERVE so far
    ghost var free: seq<seq<nat>>    // positions of the blocks on each list, front to back
    ghost var live: map<Node, nat>   // live blocks and the sizes they were requested with

    constructor (minLog: nat, maxLog: nat, reserve: Environment)
      requires 4 <= minLog < maxLog < 64 && Supplies(reserve)
      ensures Valid() && live == map[] && base == 0 && asked == 0
      ensures this.minLog == minLog && this.maxLog == maxLog && this.reserve == reserve
    {
      this.minLog, this.maxLog, this.reserve := minLog, maxLog, reserve;
      buckets, limit, base, max, asked := 0, 0, 0, 0, 0;
      bits := seq(Pow2(maxLog - minLog), _ => false);
      mem := map[];
      free, live := seq(maxLog - minLog + 1, _ => []), map[];
    }

    function Geo(): Geometry
      reads this`buckets, this`base
    {
      Geometry(minLog, maxLog, buckets, base)
    }

    ghost function State(): Rep
      reads this`limit, this`bits, this`free, this`mem
    {
      Rep(limit, bits, free, mem)
    }

    /** Before the first reservation nothing exists; from then on every invariant holds. */
    ghost predicate Valid()
      reads this
    {
      && 4 <= minLog < maxLog < 64 && Supplies(reserve)
      && (base == 0 ==> Untouched())
      && (base != 0 ==> Good(Geo(), State(), live, max))
    }

    /** All these blocks hold what they held in memory `was`. */
    ghost predicate Kept(was: Memory, us: set<Node>)
      reads this`buckets, this`base, this`mem
      requires minLog <= maxLog
    {
      SameBlocks(Geo(), was, mem, us)
    }

    ghost predicate Untouched()
      reads this
      requires minLog <= maxLog
    {
      && max == 0 && live == map[]
      && |bits| == Pow2(maxLog - minLog) && |free| == maxLog - minLog + 1
      && forall i :: 0 <= i < |bits| ==> !bits[i]
    }

    // ---------------------------------------------------------------- environment

    /** Calls RESERVE: the environment alone decides what comes of it. */
    method Reserve(size: nat) returns (start: nat)
      requires Supplies(reserve)
      modifies this`max, this`asked
      ensures asked == old(asked) + 1
      ensures var a := reserve(old(asked), size, old(max));
              if a.Refused? then start == 0 && max == old(max) else start == a.start > 0 && max == a.end
      ensures start != 0 ==> max >= old(max) + size && max >= start + size
    {
      var a := reserve(asked, size, max);
      asked := asked + 1;
      match a {
        case Refused => start := 0;
        case Granted(s, end) => start, max := s, end;
      }
    }

    /** `update_max_ptr` */
    method UpdateMax(newValue: nat) returns (ok: bool)
      requires base <= newValue && Supplies(reserve)
      modifies this`max, this`asked
      ensures ok <==>
                || newValue <= old(max)
                || (!Limited(Geo(), newValue) && reserve(old(asked), newValue - old(max), old(max)).Granted?)
      ensures Reserved(old(asked), old(max), newValue) && (ok <==> newValue <= max)
      ensures ok ==> newValue <= max && old(max) <= max
      ensures !ok ==> Denied(old(asked), newValue)
    {
      if newValue <= max {
        return true;
      }
      if newValue - base < Pow2(maxLog) {
        var start := Reserve(newValue - max);
        return start != 0;
      }
      return false;
    }

    /** Memory was made to reach `end`, from where it was after `before` calls of RESERVE: with no
        further call if it did so already or never may, else with one, for the missing bytes. */
    ghost predicate Reserved(before: nat, top: nat, end: nat)
      reads this`base, this`buckets, this`max, this`asked
      requires base <= end
    {
      if end <= top || Limited(Geo(), end) then
        asked == before && max == top
      else
        var a := reserve(before, end - top, top);
        asked == before + 1 && max == if a.Granted? then a.end else top
    }

    /** Memory does not reach `end`: RESERVE, called last, refused the missing bytes, or the
        end is one that it is never asked for. */
    ghost predicate Denied(before: nat, end: nat)
      reads this`base, this`buckets, this`max, this`asked
      requires base <= end
    {
      max < end && (Limited(Geo(), end) || (before < asked && reserve(asked - 1, end - max, max).Refused?))
    }

    /** The root is in use, and there is no memory for the links of its new right half. */
    ghost predicate RootDenied(before: nat)
      reads this`base, this`buckets, this`max, this`asked, this`limit, this`live
      requires minLog <= maxLog
    {
      0 < limit <= maxLog - minLog && live != map[] && Denied(before, Geo().Addr(Node(limit, 1)) + LINK_SIZE)
    }

    /** RESERVE refused the memory for the list heads. */
    ghost predicate FirstDenied(before: nat)
      reads this`base, this`max, this`asked
      requires minLog <= maxLog
    {
      base == 0 && asked == before + 1 && reserve(before, InitialSize(minLog, maxLog), max).Refused?
    }

    /** The best free block was taken if memory was made to reach far enough, and only then. */
    ghost predicate AtOnce(start: Rep, before: nat, top: nat, n: Node, c: nat, served: bool)
      reads this
      requires minLog <= maxLog
    {
      && c < |start.free| && c <= maxLog - minLog && BestIn(start, n, c)
      && Reserved(before, top, WantedEnd(Geo(), n, c)) && (served <==> WantedEnd(Geo(), n, c) <= max)
      && limit == start.limit && free == if served then SplitLists(start.free, n, c) else start.free
    }

    /** Why memory was short for bucket `c`: to double the root, as no block under it would do,
        or to split the best free block `n` down to that bucket. */
    ghost predicate Starved(before: nat, n: Node, c: int)
      reads this
      requires minLog <= maxLog
    {
      || (RootDenied(before) && NoneIn(free, limit, c))
      || (BestIn(State(), n, c) && c <= maxLog - minLog && Denied(before, WantedEnd(Geo(), n, c)))
    }

    // ---------------------------------------------------------------- arithmetic on nodes

    /** `ptr_for_node` */
    function PtrForNode(index: nat, bucket: nat): nat
      reads this`base
      requires minLog <= maxLog && bucket <= maxLog - minLog && index + 1 >= Pow2(bucket)
    {
      MulMono(0, index - Pow2(bucket) + 1, Pow2(maxLog - bucket));
      base + (index - Pow2(bucket) + 1) * Pow2(maxLog - bucket)
    }

    /** `node_for_ptr` */
    function NodeForPtr(ptr: nat, bucket: nat): nat
      reads this`base
      requires minLog <= maxLog && bucket <= maxLog - minLog && base <= ptr
    {
      Div(ptr - base, Pow2(maxLog - bucket)) + Pow2(bucket) - 1
    }

    /** The two maps are inverse to each other on the blocks of a bucket. */
    lemma PtrNode(n: Node)
      requires minLog <= maxLog && n.b <= maxLog - minLog
      ensures Index(n) + 1 >= Pow2(n.b) && PtrForNode(Index(n), n.b) == Geo().Addr(n)
      ensures base <= Geo().Addr(n) && NodeForPtr(Geo().Addr(n), n.b) == Index(n)
    {
      hide Pow2;
      MulMod(n.k, Pow2(maxLog - n.b), 0);
      MulMono(0, n.k, Pow2(maxLog - n.b));
    }

    /** `parent_is_split` */
    function ParentIsSplit(index: nat): bool
      reads this`bits
      requires index > 0 && (index - 1) / 2 < |bits|
    {
      bits[(index - 1) / 2]
    }

    /** `flip_parent_is_split` */
    method FlipParentIsSplit(index: nat)
      requires index > 0 && (index - 1) / 2 < |bits|
      modifies this`bits
      ensures bits == Flip(old(bits), (index - 1) / 2)
    {
      bits := bits[(index - 1) / 2 := !bits[(index - 1) / 2]];
    }

    /** `bucket_for_request` */
    method BucketForRequest(request: nat) returns (bucket: int)
      requires minLog <= maxLog && request <= MAX_REQUEST
      ensures IsBucket(minLog, maxLog, bucket, request)
    {
      bucket := maxLog - minLog;
      var size := Pow2(minLog);
      while size < request
        invariant bucket <= maxLog - minLog && size == Pow2(maxLog - bucket)
        invariant bucket < maxLog - minLog ==> Pow2(maxLog - bucket - 1) < request
        decreases request - size
      {
        bucket := bucket - 1;
        size := size * 2;
      }
    }

    // ---------------------------------------------------------------- lists

    /** `buckets[b].push(ptr)` */
    method Push(b: nat, ptr: nat, ghost n: Node)
      requires Geo().Valid() && n.b == b < |free| && b <= maxLog - minLog && ptr == Geo().Addr(n)
      modifies this`mem, this`free
      ensures State() == PushedRep(Geo(), old(State()), n)
    {
      var head := buckets + LINK_SIZE * b;
      var prev := Prev(mem, head);
      mem := SetPrev(mem, ptr, prev);
      mem := SetNext(mem, ptr, head);
      mem := SetNext(mem, Prev(mem, head), ptr);
      mem := SetPrev(mem, head, ptr);
      free := Append(free, n);
    }

    /** `List::remove` on the cell at `ptr`, the `j`-th of its list. */
    method Remove(ptr: nat, ghost n: Node, ghost j: nat)
      requires Geo().Valid() && n.b < |free| && n.b <= maxLog - minLog && j < |free[n.b]| && ptr == Geo().Addr(n)
      modifies this`mem, this`free
      ensures State() == Popped(Geo(), old(State()), n, j)
    {
      mem := SetNext(mem, Prev(mem, ptr), Next(mem, ptr));
      mem := SetPrev(mem, Next(mem, ptr), Prev(mem, ptr));
      free := Drop(free, n.b, j);
    }

    /** `buckets[b].pop()`: the last block of the list, or 0. */
    method Pop(b: nat) returns (ptr: nat, ghost n: Node)
      requires Geo().Valid() && base != 0 && limit <= b <= maxLog - minLog && RingsOk(Geo(), limit, free, mem)
      modifies this`mem, this`free
      ensures old(free)[b] == [] ==> ptr == 0 && State() == old(State())
      ensures old(free)[b] != [] ==> n == Node(b, old(free)[b][|old(free)[b]| - 1]) && ptr == Geo().Addr(n) && ptr != 0
                                     && State() == Popped(Geo(), old(State()), n, |old(free)[b]| - 1)
    {
      n := Node(b, 0);
      var head := buckets + LINK_SIZE * b;
      PopAddress(Geo(), b, free[b], mem);
      if Prev(mem, head) == head {
        ptr := 0;
      } else {
        ptr := Prev(mem, head);
        n := Node(b, free[b][|free[b]| - 1]);
        Remove(ptr, n, |free[b]| - 1);
      }
    }

    /** `clear` on the list of the bucket above the root, which becomes the root. */
    method ClearAbove()
      requires Geo().Valid() && 0 < limit <= |free|
      modifies this`limit, this`mem, this`free
      ensures State() == Raised(Geo(), old(State()))
    {
      limit := limit - 1;
      var head := buckets + LINK_SIZE * limit;
      mem := SetPrev(mem, head, head);
      mem := SetNext(mem, head, head);
      free := free[limit := []];
    }

    // ---------------------------------------------------------------- growing

    /** The indices around the root of bucket `l`. */
    lemma RootIndex(l: nat)
      requires minLog <= maxLog && l <= maxLog - minLog && l > 0
      ensures NodeForPtr(base, l) == Index(Node(l, 0)) > 0
      ensures Index(Node(l, 0)) + 1 == Index(Node(l, 1))
      ensures (Index(Node(l, 0)) - 1) / 2 == Index(Node(l - 1, 0))
      ensures Index(Node(l - 1, 0)) == 0 <==> l == 1
      ensures l > 1 ==> (Index(Node(l - 1, 0)) - 1) / 2 == Index(Node(l - 2, 0))
    {
      hide Pow2;
      IndexMoves(Node(l, 0));
      IndexMoves(Node(l - 1, 0));
      PtrNode(Node(l, 0));
    }

    /** Doubling a root that is free altogether. */
    method GrowEmpty()
      requires Valid() && base != 0 && limit > 0 && live == map[]
      modifies this`limit, this`mem, this`free
      ensures Valid() && limit == old(limit) - 1 && |free| == |old(free)|
      ensures forall b :: old(limit) < b < |free| ==> free[b] == old(free)[b]
    {
      hide Good, Pushed, Removed, Cleared;
      ghost var g, x, l := Geo(), State(), limit;
      GoodLimits(g, x, live, max);
      GrowEmptyGood(g, x, live, max);
      Remove(base, Node(l, 0), 0);
      ClearAbove();
      Push(limit, base, Node(l - 1, 0));
    }

    /** Doubling a root that is in use; the new right half needs memory for its links. */
    method GrowUsed() returns (ok: bool)
      requires Valid() && base != 0 && limit > 0 && live != map[]
      modifies this`limit, this`bits, this`mem, this`free, this`max, this`asked
      ensures Valid() && old(max) <= max && old(asked) <= asked
      ensures ok ==> limit == old(limit) - 1
      ensures ok ==> old(limit) < |free| == |old(free)| && free[old(limit)] == old(free)[old(limit)] + [1]
      ensures ok ==> forall b :: old(limit) < b < |free| ==> free[b] == old(free)[b]
      ensures !ok ==> State() == old(State()) && max == old(max) && RootDenied(old(asked))
      ensures Kept(old(mem), live.Keys)
    {
      hide Good, Pushed, Cleared, Index, Pow2, RingsOk, PtrForNode, NodeForPtr, Denied, Limited, Supplies, SameBlocks;
      SameSelf(Geo(), mem, mem, live.Keys);
      ghost var g, x, l, top := Geo(), State(), limit, max;
      ghost var n := Node(l, 1);
      GoodLimits(g, x, live, top);
      RootIndex(l);
      PtrNode(n);
      var root := NodeForPtr(base, limit);
      var right := PtrForNode(root + 1, limit);
      ok := UpdateMax(right + LINK_SIZE);
      if !ok { return; }
      GoodMax(g, x, live, top, max);
      Enlarge(root, right);
    }

    /** Puts a root over the one in use, whose new right half is listed. */
    method Enlarge(root0: nat, right: nat)
      requires Valid() && base != 0 && 0 < limit <= maxLog - minLog && live != map[]
      requires root0 == Index(Node(limit, 0)) && right == Geo().Addr(Node(limit, 1)) && right + LINK_SIZE <= max
      modifies this`limit, this`bits, this`mem, this`free
      ensures Valid() && limit == old(limit) - 1
      ensures old(limit) < |free| == |old(free)| && free[old(limit)] == old(free)[old(limit)] + [1]
      ensures forall b :: old(limit) < b < |free| ==> free[b] == old(free)[b]
      ensures Kept(old(mem), live.Keys)
    {
      hide Good, Pushed, Cleared, Index, Pow2, RingsOk, SameBlocks;
      GoodLimits(Geo(), State(), live, max);
      GrowUsedGood(Geo(), State(), live, max);
      RootIndex(limit);
      Push(limit, right, Node(limit, 1));
      ClearAbove();
      var root := (root0 - 1) / 2;
      if root != 0 {
        FlipParentIsSplit(root);
      }
    }

    /** `lower_bucket_limit` */
    method LowerBucketLimit(bucket: nat) returns (ok: bool)
      requires Valid() && base != 0
      modifies this`limit, this`bits, this`mem, this`free, this`max, this`asked
      ensures Valid() && old(max) <= max && old(asked) <= asked && limit <= old(limit)
      ensures ok ==> limit <= bucket
      ensures ok && bucket <= old(limit) ==> limit == bucket
      ensures !ok ==> RootDenied(old(asked))
      ensures !ok ==> bucket < limit && (bucket + 1 == old(limit) ==> State() == old(State()))
      ensures live == map[] ==> ok && max == old(max)
      ensures Kept(old(mem), live.Keys)
      ensures |free| == |old(free)| && forall b :: old(limit) < b < |free| ==> free[b] == old(free)[b]
      ensures old(limit) <= bucket ==> ok && State() == old(State()) && max == old(max) && asked == old(asked)
      ensures ok && live != map[] && bucket + 1 == old(limit) < |free| ==>
          limit == bucket && free[old(limit)] == old(free)[old(limit)] + [1]
    {
      hide Good, Index, Pow2, RingsOk, SameBlocks;
      SameSelf(Geo(), mem, mem, live.Keys);
      while bucket < limit
        invariant Valid() && old(max) <= max && old(asked) <= asked && limit <= old(limit)
        invariant live == map[] ==> max == old(max)
        invariant Kept(old(mem), live.Keys)
        invariant |free| == |old(free)| && forall b :: old(limit) < b < |free| ==> free[b] == old(free)[b]
        invariant limit == old(limit) || bucket <= limit
        invariant limit == old(limit) ==> State() == old(State()) && max == old(max)
        invariant old(limit) <= bucket ==> asked == old(asked)
        invariant bucket + 1 == old(limit) && limit < old(limit) ==>
                    limit == bucket && (live != map[] && old(limit) < |free|
                        ==> free[old(limit)] == old(free)[old(limit)] + [1])
        decreases limit
      {
        GoodLimits(Geo(), State(), live, max);
        GoodRoot(Geo(), State(), live, max);
        RootIndex(limit);
        var root := NodeForPtr(base, limit);
        ghost var was := mem;
        if !ParentIsSplit(root) {
          GrowEmpty();
          SameSelf(Geo(), was, mem, live.Keys);
        } else {
          var grown := GrowUsed();
          if !grown { return false; }
        }
        SameTrans(Geo(), old(mem), was, mem, live.Keys);
      }
      return true;
    }

    // ---------------------------------------------------------------- malloc

    /** The first reservation: list heads, then one block of the smallest size. */
    method Initialize() returns (ok: bool)
      requires Valid() && base == 0
      modifies this`buckets, this`base, this`limit, this`mem, this`free, this`max, this`asked
      ensures Valid() && (ok <==> base != 0) && asked == old(asked) + 1
      ensures var a := reserve(old(asked), InitialSize(minLog, maxLog), 0);
              if ok then a.Granted? && base == FirstBlock(minLog, maxLog, a.start) && max == a.end
              else a.Refused? && max == 0
    {
      hide Good, RingsOk, Pow2, Pushed, Circle;
      var count := maxLog - minLog + 1;
      var start := Reserve((count + 1) * LINK_SIZE + 32);
      buckets := start;
      if start == 0 {
        return false;
      }
      base := FirstBlock(minLog, maxLog, buckets);
      limit := count - 1;
      ghost var g, f := Geo(), free;
      ghost var m := mem;
      var head := buckets + LINK_SIZE * limit;
      mem := SetPrev(mem, head, head);
      mem := SetNext(mem, head, head);
      free := free[limit := []];
      Push(limit, base, Node(limit, 0));
      InitGood(g, bits, f, m, max);
      return true;
    }

    /** From a popped block to an allocated one: reserve, mark as used, split down to the
        bucket that was asked for, write the header. */
    method Grant(ptr: nat, bucket: nat, original: nat, request: nat, ghost x: Rep, ghost n: Node)
      returns (r: nat, ghost block: Node)
      requires 4 <= minLog < maxLog < 64 && Supplies(reserve) && base != 0 && Good(Geo(), x, live, max)
      requires n.b == bucket <= original <= maxLog - minLog && Taken(x, n) && ptr == Geo().Addr(n)
      requires NoneIn(x.free, bucket + 1, original)
      requires IsBucket(minLog, maxLog, original, request + HEADER_SIZE)
      modifies this`bits, this`mem, this`free, this`max, this`asked, this`live
      ensures Valid() && old(max) <= max && old(asked) <= asked
      ensures r == 0 ==> live == old(live) && Starved(old(asked), n, original)
      ensures Reserved(old(asked), old(max), WantedEnd(Geo(), n, original))
      ensures r != 0 <==> WantedEnd(Geo(), n, original) <= max
      ensures limit == x.limit && free == if r == 0 then x.free else SplitLists(x.free, n, original)
      ensures SameBlocks(Geo(), x.mem, mem, old(live).Keys)
      ensures r != 0 ==> block.b == original && Leftmost(n, block)
      ensures r != 0 ==>
          r == Geo().Addr(block) + HEADER_SIZE && block !in old(live) && live == old(live)[block := request]
    {
      hide Good, Pending, Index, Pow2, Pushed, Removed, IsBucket, RingsOk, Leftmost, SameBlocks, Denied, Limited;
      hide Reserved, HalvesListed, NoneIn, Supplies;
      ghost var g, top := Geo(), max;
      block := n;
      GoodLimits(g, x, live, max);
      AddrAligned(g, n);
      var size := Pow2(maxLog - bucket);
      var needed := if bucket < original then size / 2 + LINK_SIZE else size;
      var ok := UpdateMax(ptr + needed);
      GoodMax(g, x, live, top, max);
      if !ok {
        PutBack(ptr, bucket, x, n);
        return 0, block;
      }
      TakePending(g, x, live, n, |x.free[bucket]| - 1, max);
      ghost var popped, was := mem, live.Keys;
      r, block := Occupy(ptr, bucket, original, request, n);
      SameTrans(g, x.mem, popped, mem, was);
    }

    /** Puts a popped block back where it was. */
    method PutBack(ptr: nat, bucket: nat, ghost x: Rep, ghost n: Node)
      requires 4 <= minLog < maxLog < 64 && Supplies(reserve) && base != 0 && Good(Geo(), x, live, max)
      requires n.b == bucket && Taken(x, n) && ptr == Geo().Addr(n)
      modifies this`mem, this`free
      ensures Valid() && free == x.free && limit == x.limit && SameBlocks(Geo(), x.mem, mem, live.Keys)
    {
      hide Good, Pow2, Pushed, Removed, RingsOk, SameBlocks;
      GoodLimits(Geo(), x, live, max);
      PutBackGood(Geo(), x, live, n, max);
      Push(bucket, ptr, n);
    }

    /** Flip the parent's bit of a popped block, split it down and write the header. */
    method Occupy(ptr: nat, bucket: nat, original: nat, request: nat, ghost n: Node)
      returns (r: nat, ghost block: Node)
      requires 4 <= minLog < maxLog < 64 && Supplies(reserve) && base != 0
          && n.b == bucket <= original <= maxLog - minLog
      requires ptr == Geo().Addr(n) && (n.b > 0 ==> Index(Parent(n)) < |bits|)
      requires Pending(Geo(), FlippedAbove(State(), n), live, n, max) && WantedEnd(Geo(), n, original) <= max
      requires IsBucket(minLog, maxLog, original, request + HEADER_SIZE)
      modifies this`bits, this`mem, this`free, this`live
      ensures Valid() && block.b == original && Leftmost(n, block)
      ensures r == Geo().Addr(block) + HEADER_SIZE && block !in old(live) && live == old(live)[block := request]
      ensures Kept(old(mem), old(live).Keys) && free == HalvesListed(old(free), n, original)
    {
      hide Pending, Index, Pow2, IsBucket, RingsOk, Leftmost, Good, Xor, SameBlocks;
      PtrNode(n);
      IndexMoves(n);
      PendingNew(Geo(), FlippedAbove(State(), n), live, n, max);
      var i := NodeForPtr(ptr, bucket);
      if i != 0 {
        FlipParentIsSplit(i);
      }
      block := SplitDown(i, bucket, original, n);
      PendingNew(Geo(), State(), live, block, max);
      HandOut(Geo(), State(), live, block, request, max);
      SameTrans(Geo(), old(mem), mem, mem[ptr := request], live.Keys);
      mem := mem[ptr := request];
      live := live[block := request];
      r := ptr + HEADER_SIZE;
    }

    /** The splitting loop of `malloc`. */
    method SplitDown(i0: nat, bucket0: nat, original: nat, ghost n0: Node) returns (ghost n: Node)
      requires 4 <= minLog < maxLog < 64 && base != 0 && Pending(Geo(), State(), live, n0, max)
      requires Index(n0) == i0 && n0.b == bucket0 <= original <= maxLog - minLog
      requires WantedEnd(Geo(), n0, original) <= max
      modifies this`bits, this`mem, this`free
      ensures Pending(Geo(), State(), live, n, max) && n.b == original && Leftmost(n0, n)
      ensures Geo().Addr(n) == Geo().Addr(n0) && Geo().Addr(n) + Geo().Size(n.b) <= max
      ensures Kept(old(mem), live.Keys) && free == HalvesListed(old(free), n0, original)
    {
      hide Pending, Index, Pow2, Pushed, Flip, RingsOk, Leftmost, FlippedAbove, WantedEnd, Append, SameBlocks;
      SameSelf(Geo(), mem, mem, live.Keys);
      var i, bucket := i0, bucket0;
      n := n0;
      LeftmostSelf(n0);
      PendingLimits(Geo(), State(), live, n, max);
      while bucket < original
        invariant |free| == |old(free)| == maxLog - minLog + 1
        invariant bucket == n.b <= original && i == Index(n) && Leftmost(n0, n)
        invariant Pending(Geo(), State(), live, n, max)
        invariant Geo().Addr(n) == Geo().Addr(n0) && WantedEnd(Geo(), n, original) <= max
        invariant HalvesListed(free, n, original) == HalvesListed(old(free), n0, original)
        invariant Kept(old(mem), live.Keys)
        decreases original - bucket
      {
        ghost var was := mem;
        SplitRound(Geo(), State(), live, n, original, max);
        PtrNode(Right(n));
        LeftmostStep(n0, n);
        i := i * 2 + 1;
        bucket := bucket + 1;
        FlipParentIsSplit(i);
        Push(bucket, PtrForNode(i + 1, bucket), Right(n));
        SameTrans(Geo(), old(mem), was, mem, live.Keys);
        n := Left(n);
      }
      WantedWhole(Geo(), n);
    }

    /** Block `n` has been popped off the back of its list in state `x`. */
    ghost predicate Taken(x: Rep, n: Node)
      reads this`buckets, this`base, this`limit, this`bits, this`free, this`mem
    {
      && Geo().Valid() && n.b <= maxLog - minLog && AtBack(x, n)
      && State() == Popped(Geo(), x, n, |x.free[n.b]| - 1)
    }

    /** One round of the search in `malloc`: grow the root to this bucket if need be and pop
        a block; at an empty root bucket grow once more. */
    method Acquire(bucket: nat) returns (ok: bool, ptr: nat, ghost n: Node, ghost x: Rep)
      requires Valid() && base != 0 && bucket <= maxLog - minLog
      modifies this`limit, this`bits, this`mem, this`free, this`max, this`asked
      ensures old(max) <= max && old(asked) <= asked
      ensures !ok ==> Valid() && RootDenied(old(asked)) && NoneIn(free, limit, bucket)
      ensures !ok && old(limit) <= bucket ==> State() == old(State())
      ensures live == map[] ==> ok && max == old(max)
      ensures !ok || ptr == 0 ==> Kept(old(mem), live.Keys)
      ensures ok && ptr != 0 ==> SameBlocks(Geo(), old(mem), x.mem, live.Keys)
      ensures ok && ptr == 0 ==> Valid() && bucket < |free| == |old(free)| && free[bucket] == []
      ensures ok && ptr == 0 ==> limit <= bucket && (bucket == limit ==> bucket == 0)
      ensures ok && ptr == 0 && old(limit) <= bucket ==> State() == old(State())
      ensures ok && ptr == 0 && bucket < old(limit) ==> bucket == 0
      ensures ok && old(limit) <= bucket < |old(free)| && (ptr == 0 || old(free)[bucket] != []) ==>
                max == old(max) && asked == old(asked)
      ensures ok && ptr != 0 ==> Good(Geo(), x, live, max) && Reached(old(State()), x, live == map[], n, bucket)
      ensures ok && ptr != 0 ==> ptr == Geo().Addr(n) && Taken(x, n)
    {
      hide Good, Pow2, RingsOk, Index, SameBlocks, RootDenied, Removed;
      ptr, n := 0, Node(0, 0);
      GoodLimits(Geo(), State(), live, max);
      ok := LowerBucketLimit(bucket);
      x := State();
      if !ok { return; }
      GoodLimits(Geo(), x, live, max);
      if limit == bucket { RootState(Geo(), x, live, max); }
      ptr, n := Pop(bucket);
      if ptr == 0 && bucket == limit && bucket != 0 {
        RootTaken(Geo(), x, live, max);
        ghost var was, before := mem, asked;
        ok := LowerBucketLimit(bucket - 1);
        SameTrans(Geo(), old(mem), was, mem, live.Keys);
        x := State();
        if !ok { RootDeniedSince(old(asked), before); }
        if !ok { return; }
        GoodLimits(Geo(), x, live, max);
        ptr, n := Pop(bucket);
      }
    }

    /** The search of `malloc` from the bucket of the request to larger ones. */
    method Search(request: nat, original: nat) returns (r: nat, ghost block: Node, ghost origin: Node)
      requires Valid() && base != 0 && original <= maxLog - minLog
      requires IsBucket(minLog, maxLog, original, request + HEADER_SIZE)
      modifies this`limit, this`bits, this`mem, this`free, this`max, this`asked, this`live
      ensures Valid() && old(max) <= max && old(asked) <= asked
      ensures r == 0 ==> live == old(live) && (Starved(old(asked), origin, original) || NoneFree(original))
      ensures r != 0 ==> block !in old(live) && live == old(live)[block := request]
                         && block.b == original && r == Geo().Addr(block) + HEADER_SIZE
      ensures r != 0 ==> ChosenIn(old(State()), old(live) == map[], origin, original) && Leftmost(origin, block)
      ensures old(limit) <= original && !NoneIn(old(free), old(limit), original) ==>
                AtOnce(old(State()), old(asked), old(max), origin, original, r != 0)
      ensures original == 0 && old(live) == map[] ==> max == old(max)
      ensures Kept(old(mem), old(live).Keys)
    {
      hide Good, Pow2, IsBucket, RingsOk, Leftmost, Popped, Limited, SameBlocks, RootDenied, Denied;
      hide BestIn, ChosenIn, SplitLists, Reserved, WantedEnd, NoneIn, Taken, Reached;
      block, origin := Node(0, 0), Node(0, 0);
      var bucket: int := original;
      GoodLimits(Geo(), State(), live, max);
      ghost var start := State();
      SameSelf(Geo(), mem, mem, live.Keys);
      NoneJoined(free, original + 1, original, original);
      while bucket + 1 != 0
        invariant Kept(old(mem), live.Keys)
        invariant -1 <= bucket <= original <= maxLog - minLog && Valid() && live == old(live)
        invariant old(max) <= max && old(asked) <= asked && (live == map[] ==> max == old(max))
        invariant limit <= maxLog - minLog && |free| == |start.free| == maxLog - minLog + 1
        invariant NoneIn(free, bucket + 1, original)
        invariant bucket < original ==> limit <= bucket || (bucket == -1 && limit == 0)
        invariant start.limit <= original || bucket == original ==> State() == start
        invariant start.limit <= original ==> max == old(max) && asked == old(asked)
        invariant start.limit > original ==> bucket == original || bucket == -1
        decreases bucket + 1
      {
        var ok, ptr;
        ghost var x;
        ghost var was, before := mem, asked;
        ok, ptr, origin, x := Acquire(bucket);
        if !ok {
          RootDeniedSince(old(asked), before);
          SameTrans(Geo(), old(mem), was, mem, live.Keys);
          NoneJoined(free, limit, bucket, original);
          return 0, block, origin;
        }
        if ptr == 0 {
          SameTrans(Geo(), old(mem), was, mem, live.Keys);
          NoneJoined(free, bucket, bucket, original);
          bucket := bucket - 1;
          continue;
        }
        ChosenHere(start, x, live == map[], origin, bucket, original);
        EndOfRange(Geo(), x, live, max, origin);
        SameTrans(Geo(), old(mem), was, x.mem, live.Keys);
        ghost var top := max;
        before := asked;
        r, block := Grant(ptr, bucket, original, request, x, origin);
        SameTrans(Geo(), old(mem), x.mem, mem, old(live).Keys);
        if r == 0 { StarvedSince(old(asked), before, origin, original); }
        if original == 0 { NotReserved(before, top, WantedEnd(Geo(), origin, original)); }
        return r, block, origin;
      }
      return 0, block, origin;
    }

    /** The root is as large as can be, and no block is left from there to bucket `c`. */
    ghost predicate NoneFree(c: int)
      reads this`limit, this`free
    {
      limit == 0 && NoneIn(free, 0, c)
    }

    /** The root is as large as can be, and no free block has room for `r` bytes. */
    ghost predicate NoneAdequate(r: nat)
      reads this`limit, this`free
    {
      limit == 0 && forall b :: 0 <= b < |free| && Adequate(maxLog, b, r) ==> free[b] == []
    }

    lemma NothingAdequate(c: int, r: nat)
      requires Valid() && base != 0 && NoneFree(c) && IsBucket(minLog, maxLog, c, r)
      ensures NoneAdequate(r)
    {
      hide Good, IsBucket;
      GoodLimits(Geo(), State(), live, max);
      LargerBuckets(minLog, maxLog, c, r);
    }

    /** A request for the whole range can be met: everything is free, and more memory than
        is ever asked for was supplied beforehand. */
    ghost predicate WholeFits()
      reads this
      requires minLog <= maxLog
    {
      if base != 0 then
        live == map[] && base + Pow2(maxLog) <= max
      else
        var a := reserve(asked, InitialSize(minLog, maxLog), 0);
        a.Granted? && FirstBlock(minLog, maxLog, a.start) + Pow2(maxLog) <= a.end
    }

    lemma NotReserved(before: nat, top: nat, end: nat)
      requires base <= end && Reserved(before, top, end)
      ensures Limited(Geo(), end) ==> max == top
    {
    }

    lemma RootDeniedSince(earlier: nat, before: nat)
      requires minLog <= maxLog && earlier <= before && RootDenied(before)
      ensures RootDenied(earlier)
    {
    }

    lemma StarvedSince(earlier: nat, before: nat, n: Node, c: int)
      requires minLog <= maxLog && earlier <= before && Starved(before, n, c)
      ensures Starved(earlier, n, c)
    {
    }

    /** The outcome of a search for a block of bucket 0. */
    lemma WholeDecided(found: bool, block: Node, origin: Node, was: map<Node, nat>, before: nat)
      requires Valid() && base != 0
      requires found ==> block.b == 0 && block !in was && block in live && live == was[block := live[block]]
      requires !found ==> live == was && (Starved(before, origin, 0) || NoneFree(0))
      ensures found <==> was == map[] && base + Pow2(maxLog) <= max
    {
      hide Good, Pow2;
      assert BestIn(State(), origin, 0) ==> Listed(limit, free, origin);
      if found {
        WholeTaken(Geo(), State(), live, max, block);
        assert forall k :: k in was ==> k in live && k == block;
        assert was.Keys == {};
      } else {
        WholeLacks(Geo(), State(), live, max, origin);
      }
    }

    /** `malloc` */
    method Malloc(request: nat) returns (r: nat, ghost block: Node, ghost origin: Node, ghost c: int)
      requires Valid()
      modifies this
      ensures Valid() && old(max) <= max
      ensures request + HEADER_SIZE <= Pow2(maxLog) && base != 0 ==>
                0 <= c && IsBucket(minLog, maxLog, c, request + HEADER_SIZE)
      ensures r == 0 ==> live == old(live)
      ensures r != 0 ==> base != 0 && block.b == c && block !in old(live) && live == old(live)[block := request]
                         && c <= maxLog - minLog && r == Geo().Addr(block) + HEADER_SIZE
      // a request fails only when it is too large, when memory is refused or limited, or
      // when no block is left in any bucket with blocks large enough
      ensures r == 0 && request + HEADER_SIZE <= Pow2(maxLog) ==>
                if base == 0 then
                  FirstDenied(old(asked))
                else
                  NoneAdequate(request + HEADER_SIZE) || Starved(old(asked), origin, c)
      ensures old(base) != 0 ==> base == old(base) && buckets == old(buckets)
      ensures Kept(old(mem), old(live).Keys)
      // one for the whole range fails exactly when memory does not already reach so far
      ensures WholeRange(maxLog, request + HEADER_SIZE) ==> (r != 0 <==> old(WholeFits()))
      // it is served from the smallest adequate bucket with a free block, from its back, and
      // if there is none, from the grown root; the first allocation is at the start
      ensures r != 0 ==> Leftmost(origin, block)
      ensures r != 0 && old(base) != 0 ==> ChosenIn(old(State()), old(live) == map[], origin, c)
      ensures r != 0 && old(live) == map[] ==> r == base + HEADER_SIZE
      // when a free block is found at once, all that happens is determined
      ensures old(base) != 0 && request + HEADER_SIZE <= Pow2(maxLog)
                && old(limit) <= c && !NoneIn(old(free), old(limit), c) ==>
                AtOnce(old(State()), old(asked), old(max), origin, c, r != 0)
    {
      hide Good, Pow2, IsBucket, RingsOk, Leftmost, Limited, Starved, Denied, Supplies, Adequate, SameBlocks;
      hide BestIn, ChosenIn, SplitLists, Reserved, WantedEnd, NoneIn, AtOnce;
      block, origin, c := Node(0, 0), Node(0, 0), -1;
      SameSelf(Geo(), mem, mem, live.Keys);
      if request + HEADER_SIZE > Pow2(maxLog) {
        return 0, block, origin, c;
      }
      if base == 0 {
        var ok := Initialize();
        SameSelf(Geo(), old(mem), mem, live.Keys);
        if !ok { return 0, block, origin, c; }
      }
      MaxRequest(maxLog);
      var bucket := BucketForRequest(request + HEADER_SIZE);
      BucketFits(minLog, maxLog, bucket, request + HEADER_SIZE);
      c := bucket;
      ghost var was, before, start, at, top := live, asked, mem, State(), max;
      r, block, origin := Search(request, bucket);
      SameTrans(Geo(), old(mem), start, mem, was.Keys);
      if r == 0 {
        if Starved(before, origin, bucket) {
          StarvedSince(old(asked), before, origin, bucket);
        } else {
          NothingAdequate(bucket, request + HEADER_SIZE);
        }
      } else if was == map[] {
        FirstPlace(Geo(), at, top, origin, bucket, block);
      }
      if WholeRange(maxLog, request + HEADER_SIZE) {
        WholeBucket(minLog, maxLog, bucket, request + HEADER_SIZE);
        WholeDecided(r != 0, block, origin, was, before);
      }
    }

    // ---------------------------------------------------------------- resize, free

    /** `resize`; `n` is the live block that `ptr` points into. */
    method Resize(ptr: nat, request: nat, ghost n: Node) returns (ok: bool)
      requires Valid() && request + HEADER_SIZE <= MAX_REQUEST
      requires ptr != 0 && base <= ptr <= max ==>
          n in live && n.b <= maxLog - minLog && ptr == Geo().Addr(n) + HEADER_SIZE
      modifies this`mem, this`live
      ensures Valid()
      ensures ok <==> ptr != 0 && base <= ptr <= max && IsBucket(minLog, maxLog, n.b, request + HEADER_SIZE)
      ensures live == if ok then old(live)[n := request] else old(live)
      ensures mem == if ok then old(mem)[ptr - HEADER_SIZE := request] else old(mem)
    {
      hide Good, Pow2, IsBucket, Pending;
      if ptr != 0 && base <= ptr && ptr <= max {
        GiveBack(Geo(), State(), live, n, max);
        LiveRequest(minLog, maxLog, n.b, live[n] + HEADER_SIZE);
        var current := BucketForRequest(At(mem, ptr - HEADER_SIZE) + HEADER_SIZE);
        BucketUnique(minLog, maxLog, n.b, current, live[n] + HEADER_SIZE);
        var wanted := BucketForRequest(request + HEADER_SIZE);
        if current == wanted {
          GoodLimits(Geo(), State(), live, max);
          Rewrite(Geo(), State(), live, n, request, max);
          mem := mem[ptr - HEADER_SIZE := request];
          live := live[n := request];
          return true;
        }
        Different(minLog, maxLog, n.b, wanted, request + HEADER_SIZE);
      }
      return false;
    }

    /** `free`; `n0` is the live block that `ptr` points into. */
    method Free(ptr: nat, ghost n0: Node)
      requires Valid()
      requires ptr != 0 && base <= ptr <= max ==>
          n0 in live && n0.b <= maxLog - minLog && ptr == Geo().Addr(n0) + HEADER_SIZE
      modifies this`bits, this`mem, this`free, this`live
      ensures Valid()
      ensures ptr != 0 && base <= ptr <= max ==> live == old(live) - {n0}
      ensures !(ptr != 0 && base <= ptr <= max) ==> live == old(live) && State() == old(State())
      ensures Kept(old(mem), live.Keys) && base == old(base)
      // a block whose buddy is in use, or the root, goes to the back of its list
      ensures limit == old(limit) && max == old(max)
      ensures ptr != 0 && base <= ptr <= max && (n0.b == limit || Used(live.Keys, Sibling(n0))) ==>
                n0.b < |old(free)| && free == Append(old(free), n0)
    {
      hide Good, Pending, Pow2, IsBucket, Index, Used, RingsOk, Removed, Pushed, Xor, SameBlocks;
      SameSelf(Geo(), mem, mem, live.Keys);
      if ptr != 0 && base <= ptr && ptr <= max {
        var start := ptr - HEADER_SIZE;
        GiveBack(Geo(), State(), live, n0, max);
        LiveRequest(minLog, maxLog, n0.b, live[n0] + HEADER_SIZE);
        var bucket := BucketForRequest(At(mem, start) + HEADER_SIZE);
        BucketUnique(minLog, maxLog, n0.b, bucket, live[n0] + HEADER_SIZE);
        PtrNode(n0);
        var i := NodeForPtr(start, bucket);
        live := live - {n0};
        ghost var n := n0;
        i, bucket, n := MergeUp(i, bucket, n);
        PtrNode(n);
        Push(bucket, PtrForNode(i, bucket), n);
      }
    }

    /** The loop of `free`: walk up, flipping bits and merging with unused buddies. On return
        the block only has to be listed. */
    method MergeUp(i0: nat, bucket0: nat, ghost n0: Node) returns (i: nat, bucket: nat, ghost n: Node)
      requires 4 <= minLog < maxLog < 64 && base != 0 && Pending(Geo(), State(), live, n0, max)
      requires i0 == Index(n0) && bucket0 == n0.b <= maxLog - minLog && Geo().Addr(n0) + LINK_SIZE <= max
      modifies this`bits, this`mem, this`free
      ensures i == Index(n) && bucket == n.b <= maxLog - minLog && bucket < |free| && Geo().Valid()
      ensures Good(Geo(), PushedRep(Geo(), State(), n), live, max)
      ensures SameBlocks(Geo(), old(mem), PushedRep(Geo(), State(), n).mem, live.Keys)
      ensures n0.b == limit || Used(live.Keys, Sibling(n0)) ==> n == n0 && free == old(free)
    {
      hide Good, Pending, Pow2, Index, Used, RingsOk, Removed, Pushed, Xor, PushedRep, SameBlocks;
      SameSelf(Geo(), mem, mem, live.Keys);
      i, bucket, n := i0, bucket0, n0;
      ghost var x := State();
      PendingNew(Geo(), x, live, n, max);
      while i != 0
        invariant i == Index(n) && bucket == n.b <= maxLog - minLog && Geo().Addr(n) + LINK_SIZE <= max
        invariant State() == x && Pending(Geo(), x, live, n, max)
        invariant n.b == 0 ==> n.k == 0
        invariant Kept(old(mem), live.Keys)
        invariant (n == n0 && free == old(free)) || !(n0.b == limit || Used(live.Keys, Sibling(n0)))
        decreases bucket
      {
        IndexMoves(n);
        PtrNode(Sibling(n));
        FlippedBit(Geo(), x, live, n, max);
        FlipParentIsSplit(i);
        assert State() == FlippedAbove(x, n);
        assert ParentIsSplit(i) == !x.bits[Index(Parent(n))];
        if ParentIsSplit(i) || bucket == limit {
          Release(Geo(), x, live, n, max);
          SameTrans(Geo(), old(mem), mem, PushedRep(Geo(), State(), n).mem, live.Keys);
          return;
        }
        StillUsed(live.Keys, n, Sibling(n0));
        ghost var j := SiblingListed(Geo(), x, live, n, max);
        MergePending(Geo(), x, live, n, j, max);
        Remove(PtrForNode(Xor(i - 1, 1) + 1, bucket), Sibling(n), j);
        SameTrans(Geo(), old(mem), x.mem, mem, live.Keys);
        i := (i - 1) / 2;
        bucket := bucket - 1;
        n := Parent(n);
        x := State();
        PendingNew(Geo(), x, live, n, max);
      }
      IndexMoves(n);
      PendingNew(Geo(), x, live, n, max);
      Release(Geo(), x, live, n, max);
      SameTrans(Geo(), old(mem), mem, PushedRep(Geo(), State(), n).mem, live.Keys);
    }
  }

  lemma StillUsed(live: set<Node>, n: Node, m: Node)
    ensures Used(live, m) ==> Used(live + {n}, m)
  {
    if Used(live, m) {
      var u :| u in live && Overlap(u, m);
      assert u in live + {n};
    }
  }

  /** A live block's request is one that `bucket_for_request` handles. */
  lemma LiveRequest(minLog: nat, maxLog: nat, b: nat, r: nat)
    requires minLog <= maxLog < 64 && IsBucket(minLog, maxLog, b, r) && b <= maxLog - minLog
    ensures r <= MAX_REQUEST
  {
    MaxRequest(maxLog);
    Pow2Mono(maxLog - b, maxLog);
  }

  lemma Different(minLog: nat, maxLog: nat, b: int, c: int, r: nat)
    requires minLog <= maxLog && IsBucket(minLog, maxLog, c, r) && b != c
    ensures !IsBucket(minLog, maxLog, b, r)
  {
    if IsBucket(minLog, maxLog, b, r) { BucketUnique(minLog, maxLog, b, c, r); }
  }

  /** `m` is the block of its bucket at the start of `n`. */
  predicate Leftmost(n: Node, m: Node) { n.b <= m.b && m.k == n.k * Pow2(m.b - n.b) }

  lemma LeftmostSelf(n: Node)
    ensures Leftmost(n, n)
  {
  }

  lemma LeftmostStep(n: Node, m: Node)
    requires Leftmost(n, m)
    ensures Leftmost(n, Left(m))
  {
    HalfScale(n.k, m.b + 1 - n.b);
  }

  lemma MaxRequest(maxLog: nat)
    requires maxLog < 64
    ensures Pow2(maxLog) <= MAX_REQUEST
  {
    hide Pow2;
    Pow2Word();
    HalfScale(1, 64);
    Pow2Mono(maxLog, 63);
  }

  /** One round of splitting: flip the bit of the block, list its right half. */
  lemma SplitRound(g: Geometry, x: Rep, live: map<Node, nat>, n: Node, c: nat, top: nat)
    requires Pending(g, x, live, n, top) && g.minLog <= g.maxLog && n.b < c <= g.Depth() && WantedEnd(g, n, c) <= top
    ensures g.Valid() && |x.free| == g.Depth() + 1 && Index(n) < |x.bits|
    ensures Pending(g, SplitRep(g, x, n), live, Left(n), top) && WantedEnd(g, Left(n), c) <= top
    ensures SameBlocks(g, x.mem, SplitRep(g, x, n).mem, live.Keys)
    ensures g.Addr(Left(n)) == g.Addr(n)
    ensures Index(Left(n)) == 2 * Index(n) + 1 && Index(Right(n)) == Index(Left(n)) + 1
  {
    hide Pending, Pow2;
    PendingLimits(g, x, live, n, top);
    RightLink(g, n, c, top);
    SplitPending(g, x, live, n, top);
    IndexMoves(n);
    IndexMoves(Left(n));
  }

  /** The blocks of bucket `b` have room for `r` bytes. */
  predicate Adequate(maxLog: nat, b: int, r: nat) { b <= maxLog && r <= Pow2(maxLog - b) }

  /** Buckets of blocks that are large enough are those up to the bucket of the request. */
  lemma LargerBuckets(minLog: nat, maxLog: nat, c: int, r: nat)
    requires minLog <= maxLog && IsBucket(minLog, maxLog, c, r)
    ensures forall b :: 0 <= b <= maxLog - minLog && Adequate(maxLog, b, r) ==> b <= c
  {
    forall b | 0 <= b <= maxLog - minLog && Adequate(maxLog, b, r)
      ensures b <= c
    {
      if b > c { Pow2Mono(maxLog - b, maxLog - c - 1); }
    }
  }

  /** The list at the root holds the root exactly when nothing is live, and else nothing. */
  lemma RootState(g: Geometry, x: Rep, live: map<Node, nat>, top: nat)
    requires Good(g, x, live, top)
    ensures x.limit < |x.free| && x.free[x.limit] == if live == map[] then [0] else []
  {
    hide BitsOk, RingsOk, LinksBelow, LiveBelow, HeadersOk, Pow2;
    GoodLimits(g, x, live, top);
    if live == map[] {
      assert live.Keys == {};
      EmptyLists(g, x);
    } else {
      var u :| u in live;
      var ks := x.free[x.limit];
      UsedRoot(x.limit, live.Keys, u, if ks == [] then 0 else ks[0]);
      assert ks != [] ==> Listed(x.limit, x.free, Node(x.limit, ks[0]));
    }
  }

  /** With nothing live, the block that is served starts the range. */
  lemma FirstPlace(g: Geometry, x: Rep, top: nat, n: Node, c: int, block: Node)
    requires Good(g, x, map[], top) && ChosenIn(x, true, n, c) && Leftmost(n, block) && block.b <= g.Depth()
    ensures g.Addr(block) == g.base
  {
    hide Good, Pow2;
    var none: map<Node, nat> := map[];
    RootState(g, x, none, top);
    if x.limit <= c {
      assert !NoneIn(x.free, x.limit, c);
      OnlyRootListed(g, x, top, n);
    }
  }

  lemma OnlyRootListed(g: Geometry, x: Rep, top: nat, n: Node)
    requires Good(g, x, map[], top) && x.limit <= n.b < |x.free| && n.k in x.free[n.b]
    ensures n == Node(x.limit, 0)
  {
    hide Good;
    GoodLimits(g, x, map[], top);
    OnlyRoot(g, x, top, n);
  }

  lemma UsedRoot(l: nat, live: set<Node>, u: Node, k: nat)
    requires u in live && InRoot(l, u)
    ensures !Free(l, live, Node(l, k))
  {
    assert InRoot(l, Node(l, k)) ==> Overlap(u, Node(l, k));
  }

  /** An empty list at the root means that something is live. */
  lemma RootTaken(g: Geometry, x: Rep, live: map<Node, nat>, top: nat)
    requires Good(g, x, live, top) && x.limit < |x.free| && x.free[x.limit] == []
    ensures live != map[]
  {
    if live == map[] {
      assert live.Keys == {};
      EmptyLists(g, x);
      assert false;
    }
  }

  /** What it means for a request for the whole range that there is no block for it. */
  lemma WholeLacks(g: Geometry, x: Rep, live: map<Node, nat>, top: nat, n: Node)
    requires Good(g, x, live, top)
    ensures Listed(x.limit, x.free, n) && n.b == 0 ==> n.b <= g.Depth() && WantedEnd(g, n, 0) == g.base + Pow2(g.maxLog)
    ensures |x.free| > 0 && (x.limit == 0 && x.free[0] == [] ==> live != map[])
  {
    hide Good, Pow2;
    GoodLimits(g, x, live, top);
    if Listed(x.limit, x.free, n) && n.b == 0 { WholeListed(g, x, live, top, n); }
    if x.limit == 0 && x.free[0] == [] { RootTaken(g, x, live, top); }
  }

  lemma InitGood(g: Geometry, bits: seq<bool>, free: seq<seq<nat>>, m: Memory, top: nat)
    requires g.Valid() && |free| == g.Depth() + 1 && |bits| == Pow2(g.Depth())
    requires forall i :: 0 <= i < |bits| ==> !bits[i]
    requires g.base + LINK_SIZE <= top
    ensures var d := g.Depth();
            Good(g, PushedRep(g, Rep(d, bits, free[d := []], Cleared(m, g.Head(d))), Node(d, 0)), map[], top)
  {
    hide Consistent;
    var d := g.Depth();
    InitStep(g, bits, free, m);
    var none: map<Node, nat> := map[];
    assert none.Keys == {};
    var w := PushedRep(g, Rep(d, bits, free[d := []], Cleared(m, g.Head(d))), Node(d, 0));
    forall n | Listed(w.limit, w.free, n) && n.b <= d
      ensures g.Addr(n) + LINK_SIZE <= top
    {
    }
  }

  /** `parent_is_split` of the root tells whether anything is live. */
  lemma GoodRoot(g: Geometry, x: Rep, live: map<Node, nat>, top: nat)
    requires Good(g, x, live, top) && x.limit > 0
    ensures Index(Node(x.limit - 1, 0)) < |x.bits|
    ensures x.bits[Index(Node(x.limit - 1, 0))] <==> live != map[]
  {
    RootInUse(g, x, live.Keys);
    assert live.Keys == {} ==> live == map[];
  }

  /** The last cell of a circle, read through the list head. */
  lemma PopAddress(g: Geometry, b: nat, ks: seq<nat>, m: Memory)
    requires g.Valid() && b <= g.Depth() && Circle(m, Ring(g, b, ks))
    ensures ks == [] <==> Prev(m, g.Head(b)) == g.Head(b)
    ensures ks != [] ==> Prev(m, g.Head(b)) == g.Addr(Node(b, ks[|ks| - 1]))
  {
    var r := Ring(g, b, ks);
    assert r[0] == g.Head(b) && Prev(m, r[0]) == Before(r, 0);
    if ks != [] { HeadApart(g, b, Node(b, ks[|ks| - 1])); }
  }

  // ------------------------------------------------------------------ what callers rely on

  /** A live block holds its header and the whole request, in reserved memory and aligned,
      and shares no byte with any other live block. */
  lemma BlocksSafe(s: Buddy, u: Node, v: Node)
    requires s.Valid() && u in s.live
    ensures s.base != 0 && u.b <= s.maxLog - s.minLog
    ensures var g := s.Geo();
            && HEADER_SIZE + s.live[u] <= g.Size(u.b) && g.Addr(u) + g.Size(u.b) <= s.max
            && At(s.mem, g.Addr(u)) == s.live[u] && (g.Addr(u) + HEADER_SIZE) % 16 == 0
    ensures v in s.live && v != u ==>
              var g := s.Geo();
              && v.b <= s.maxLog - s.minLog
              && (g.Addr(u) + g.Size(u.b) <= g.Addr(v) || g.Addr(v) + g.Size(v.b) <= g.Addr(u))
  {
    hide Pow2, Consistent, LinksBelow;
    GoodLimits(s.Geo(), s.State(), s.live, s.max);
    LiveClear(s.Geo(), s.State(), s.live.Keys, u);
    AddrAligned(s.Geo(), u);
    if v in s.live && v != u { LiveBlocksSafe(s.Geo(), s.State(), s.live.Keys, u, v); }
  }

  // ------------------------------------------------------------------ the whole range

  /** A RESERVE that never refuses and supplies what it is asked for, from 4096 on. */
  function Generous(i: nat, size: nat, end: nat): Reservation {
    if end == 0 then Granted(4096, 4096 + size) else Granted(end, end + size)
  }

  /** The largest request that passes the first test of `malloc` fails on a new allocator
      although memory is never refused. */
  method WholeRangeFails(minLog: nat, maxLog: nat) returns (b: Buddy, r: nat)
    requires 4 <= minLog < maxLog < 64 && maxLog >= 6
    ensures fresh(b) && b.Valid() && b.maxLog == maxLog && b.live == map[]
    ensures forall i: nat, size: nat, end: nat :: b.reserve(i, size, end).Granted?
    ensures r == 0
  {
    assert Pow2(6) == 64;
    hide Pow2, Good;
    Pow2Mono(6, maxLog);
    b := new Buddy(minLog, maxLog, Generous);
    ghost var block, origin, c;
    r, block, origin, c := b.Malloc(Pow2(maxLog) - HEADER_SIZE);
  }

  /** With everything free and a RESERVE that never refuses, every request for at most half of
      the range is served; on a new allocator in particular. */
  method ServedWhenFree(s: Buddy, request: nat) returns (r: nat)
    requires s.Valid() && s.live == map[] && s.maxLog >= 6 && 2 * (request + HEADER_SIZE) <= Pow2(s.maxLog)
    requires forall i: nat, size: nat, end: nat :: s.reserve(i, size, end).Granted?
    modifies s
    ensures s.Valid() && r == s.base + HEADER_SIZE && exists u :: s.live == map[u := request]
  {
    hide Good, Pow2, IsBucket, SameBlocks, Leftmost, Adequate, Limited;
    ghost var block, origin, c;
    r, block, origin, c := s.Malloc(request);
    if r == 0 {
      FreeServes(s.Geo(), s.State(), s.max, request);
    }
  }

  /** A block that is freed while its buddy is in use is the next one of its size to be served. */
  method FreedIsReused(s: Buddy, ptr: nat, ghost n: Node, request: nat) returns (r: nat)
    requires s.Valid() && n in s.live && s.base != 0
    requires n.b <= s.maxLog - s.minLog && ptr == s.Geo().Addr(n) + HEADER_SIZE
    requires n.b == s.limit || Used(s.live.Keys - {n}, Sibling(n))
    requires IsBucket(s.minLog, s.maxLog, n.b, request + HEADER_SIZE)
    modifies s
    ensures s.Valid() && r == ptr && s.live == old(s.live)[n := request]
  {
    hide Good, Pow2, IsBucket, SameBlocks, Leftmost, Adequate, Limited, Used;
    hide BestIn, ChosenIn, NoneIn, WantedEnd, SplitLists;
    ghost var g, live0 := s.Geo(), s.live;
    LiveEnd(g, s.State(), live0, s.max, n);
    assert (live0 - {n}).Keys == live0.Keys - {n};
    s.Free(ptr, n);
    BucketSize(s.minLog, s.maxLog, n.b, request + HEADER_SIZE);
    ghost var x, top, before := s.State(), s.max, s.asked;
    AtTheBack(x, n);
    ghost var block, origin, c;
    r, block, origin, c := s.Malloc(request);
    BucketUnique(s.minLog, s.maxLog, n.b, c, request + HEADER_SIZE);
    AgainServed(s, x, before, top, origin, n, r != 0);
    LeftmostSame(n, block);
    assert (live0 - {n})[n := request] == live0[n := request];
  }

  /** The last block of a list is the best one for requests of its size. */
  lemma AtTheBack(x: Rep, n: Node)
    requires x.limit <= n.b < |x.free| && x.free[n.b] != []
    ensures !NoneIn(x.free, x.limit, n.b)
    ensures forall m: Node :: BestIn(x, m, n.b) ==> m.b == n.b && m.k == x.free[n.b][|x.free[n.b]| - 1]
  {
    assert x.free[n.b] != [];
  }

  lemma AgainServed(s: Buddy, x: Rep, before: nat, top: nat, m: Node, n: Node, served: bool)
    requires s.minLog <= s.maxLog && s.AtOnce(x, before, top, m, n.b, served)
    requires x.limit <= n.b < |x.free| && x.free[n.b] != [] && n.k == x.free[n.b][|x.free[n.b]| - 1]
    requires s.Geo().Addr(n) + s.Geo().Size(n.b) <= top
    ensures served && m == n
  {
    hide Pow2, SplitLists, Limited, BestIn;
    AtTheBack(x, n);
    WantedWhole(s.Geo(), n);
  }

  lemma LeftmostSame(n: Node, m: Node)
    requires Leftmost(n, m) && n.b == m.b
    ensures n == m
  {
  }

  lemma LiveEnd(g: Geometry, x: Rep, live: map<Node, nat>, top: nat, n: Node)
    requires Good(g, x, live, top) && n in live
    ensures g.Valid() && x.limit <= n.b <= g.Depth() && g.Addr(n) + g.Size(n.b) <= top && g.Size(n.b) >= 16
    ensures |x.free| == g.Depth() + 1
  {
    LiveClear(g, x, live.Keys, n);
    SizeSixteen(g, n.b);
  }

  lemma BucketSize(minLog: nat, maxLog: nat, b: nat, r: nat)
    requires minLog <= maxLog && IsBucket(minLog, maxLog, b, r) && b <= maxLog
    ensures r <= Pow2(maxLog)
  {
    Pow2Mono(maxLog - b, maxLog);
  }

  /** Block `n` may be split down to bucket `c`, which is the one for `r` bytes. */
  predicate Suits(g: Geometry, n: Node, c: int, r: nat)
    requires g.minLog <= g.maxLog
  {
    n.b <= c <= g.Depth() && IsBucket(g.minLog, g.maxLog, c, r)
  }

  /** With everything free, one block is listed: the root, which has room for at least half of
      the range below the limit. */
  lemma FreeServes(g: Geometry, x: Rep, top: nat, request: nat)
    requires Good(g, x, map[], top) && g.maxLog >= 6 && 2 * (request + HEADER_SIZE) <= Pow2(g.maxLog)
    ensures x.limit == 0 ==> |x.free| > 0 && x.free[0] != [] && Adequate(g.maxLog, 0, request + HEADER_SIZE)
    ensures forall n: Node, c: int :: Listed(x.limit, x.free, n) && Suits(g, n, c, request + HEADER_SIZE) ==>
              !Limited(g, WantedEnd(g, n, c))
  {
    hide Good, Pow2, Limited, IsBucket;
    var none: map<Node, nat> := map[];
    GoodLimits(g, x, none, top);
    RootState(g, x, none, top);
    HalfAdequate(g.maxLog, request + HEADER_SIZE);
    forall n: Node, c: int | Listed(x.limit, x.free, n) && Suits(g, n, c, request + HEADER_SIZE)
      ensures !Limited(g, WantedEnd(g, n, c))
    {
      FreeUnlimited(g, x, top, n, c, request + HEADER_SIZE);
    }
  }

  lemma HalfAdequate(maxLog: nat, r: nat)
    requires 2 * r <= Pow2(maxLog)
    ensures Adequate(maxLog, 0, r)
  {
  }

  lemma FreeUnlimited(g: Geometry, x: Rep, top: nat, n: Node, c: int, r: nat)
    requires Good(g, x, map[], top) && g.maxLog >= 6 && 2 * r <= Pow2(g.maxLog)
    requires Listed(x.limit, x.free, n) && g.minLog <= g.maxLog && Suits(g, n, c, r)
    ensures !Limited(g, WantedEnd(g, n, c))
  {
    assert Pow2(6) == 64;
    hide Good, Pow2, Limited;
    var none: map<Node, nat> := map[];
    GoodLimits(g, x, none, top);
    OnlyRoot(g, x, top, n);
    LimitExact(g, n, c);
    Pow2Mono(6, g.maxLog);
    if n.b > 0 { Pow2Mono(1, n.b); }
    HalfScale(1, g.maxLog);
  }

  lemma OnlyRoot(g: Geometry, x: Rep, top: nat, n: Node)
    requires Good(g, x, map[], top) && Listed(x.limit, x.free, n) && n.b <= g.Depth()
    ensures n == Node(x.limit, 0) && Pow2(0) == 1 && Pow2(1) == 2
  {
    var none: map<Node, nat> := map[];
    assert none.Keys == {};
    hide BitsOk, RingsOk, LinksBelow, LiveBelow, HeadersOk;
    AllFreed(g, x, n);
  }

  // ------------------------------------------------------------------ size doubling in a machine word

  /** The loop of `bucket_for_request` in 64-bit arithmetic: its size after `i` doublings. */
  function DoubledSize(minLog: nat, i: nat): nat { Pow2(minLog + i) % WORD }

  /** In machine arithmetic that loop ends exactly for requests up to 2^63: beyond, the
      size wraps to 0 and stays there. */
  lemma DoublingEnds(minLog: nat, request: nat)
    requires minLog < 64
    ensures (exists i :: DoubledSize(minLog, i) >= request) <==> request <= MAX_REQUEST
  {
    hide Pow2;
    Pow2Word();
    assert Pow2(63) == MAX_REQUEST by { HalfScale(1, 64); }
    assert DoubledSize(minLog, 63 - minLog) == MAX_REQUEST;
    forall i: nat
      ensures DoubledSize(minLog, i) <= MAX_REQUEST
    {
      if minLog + i < 64 {
        Pow2Mono(minLog + i, 63);
      } else {
        Pow2Add(64, minLog + i - 64);
        MulMod(Pow2(minLog + i - 64), WORD, 0);
      }
    }
  }
}
