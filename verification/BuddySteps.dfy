/** The elementary steps of the buddy allocator on its whole representation. Each keeps
    bits, lists, circles and live blocks consistent with one another. */
module BuddySteps {
  import opened Bits
  import opened BuddyTree
  import opened FreeList
  import SlotLists
  import opened BuddyState

  /** The mutable part: the root's bucket, the "is split" bits, the positions on each list
      and the memory words. */
  datatype Rep = Rep(limit: nat, bits: seq<bool>, free: seq<seq<nat>>, mem: Memory)

  ghost predicate Consistent(g: Geometry, x: Rep, live: set<Node>) {
    && g.Valid()
    && Proper(g.Depth(), x.limit, live)
    && BitsOk(g.Depth(), x.limit, live, x.bits)
    && ListsOk(g.Depth(), x.limit, live, x.free)
    && RingsOk(g, x.limit, x.free, x.mem)
  }

  /** These blocks hold the same in both memories. */
  ghost predicate SameBlocks(g: Geometry, m: Memory, m': Memory, live: set<Node>)
    requires g.minLog <= g.maxLog
  {
    forall u :: u in live && u.b <= g.Depth() ==> SameBlock(g, m, m', u)
  }

  /** Every link of a listed block lies below `top`. */
  ghost predicate LinksBelow(g: Geometry, x: Rep, top: nat)
    requires g.Valid()
  {
    forall n :: Listed(x.limit, x.free, n) && n.b <= g.Depth() ==> g.Addr(n) + LINK_SIZE <= top
  }

  lemma LiveClear(g: Geometry, x: Rep, live: set<Node>, u: Node)
    requires Consistent(g, x, live) && u in live
    ensures u.b <= g.Depth() && InRoot(x.limit, u) && Clear(x.limit, x.free, u)
  {
    forall m | Listed(x.limit, x.free, m)
      ensures !Overlap(u, m)
    {
      assert Free(x.limit, live, m);
    }
  }

  // ------------------------------------------------------------------ pop

  function Popped(g: Geometry, x: Rep, n: Node, j: nat): Rep
    requires g.Valid() && n.b < |x.free| && n.b <= g.Depth() && j < |x.free[n.b]|
  {
    x.(free := Drop(x.free, n.b, j), mem := Removed(x.mem, g.Addr(n)))
  }

  lemma PoppedRings(g: Geometry, x: Rep, live: set<Node>, n: Node, j: nat)
    requires Consistent(g, x, live)
    requires x.limit <= n.b <= g.Depth() && j < |x.free[n.b]| && x.free[n.b][j] == n.k
    ensures Free(x.limit, live, n)
    ensures RingsOk(g, x.limit, Popped(g, x, n, j).free, Popped(g, x, n, j).mem)
    ensures SameBlocks(g, x.mem, Popped(g, x, n, j).mem, live)
  {
    hide RingsOk;
    assert Listed(x.limit, x.free, n);
    ListsScattered(g.Depth(), x.limit, live, x.free);
    RemoveRings(g, x.limit, x.free, x.mem, n, j);
    forall u | u in live
      ensures SameBlock(g, x.mem, Popped(g, x, n, j).mem, u)
    {
      LiveClear(g, x, live, u);
      RemoveBlock(g, x.limit, x.free, x.mem, n, j, u);
    }
  }

  function FlippedAbove(x: Rep, n: Node): Rep
    requires n.b > 0 ==> Index(Parent(n)) < |x.bits|
  {
    if n.b > 0 then x.(bits := Flip(x.bits, Index(Parent(n)))) else x
  }

  /** Popping a block off its list and flipping the bit of its parent makes it live. */
  lemma TakeStep(g: Geometry, x: Rep, live: set<Node>, n: Node, j: nat)
    requires Consistent(g, x, live)
    requires x.limit <= n.b <= g.Depth() && j < |x.free[n.b]| && x.free[n.b][j] == n.k
    ensures n.b > 0 ==> Index(Parent(n)) < |x.bits|
    ensures Consistent(g, FlippedAbove(Popped(g, x, n, j), n), live + {n})
    ensures n !in live && Free(x.limit, live, n)
  {
    var d, l := g.Depth(), x.limit;
    PoppedRings(g, x, live, n, j);
    hide RingsOk, BitsOk, ListsOk;
    TakeProper(d, l, live, n);
    forall m: Node
      ensures Free(l, live + {n}, m) <==> Free(l, live, m) && m != n
      ensures Split(l, live + {n}, m) <==> (Split(l, live, m) != (n.b > 0 && m == Parent(n)))
    {
      TakeFree(l, live, n, m);
      TakeSplit(l, live, n, m);
    }
    hide Free, Split;
    TakeLists(d, l, live, live + {n}, x.free, n, j);
    TakeBits(d, l, live, live + {n}, x.bits, n);
  }

  lemma TakeLists(d: nat, l: nat, live: set<Node>, live': set<Node>, free: seq<seq<nat>>, n: Node, j: nat)
    requires ListsOk(d, l, live, free) && l <= n.b <= d && n.b < |free| && j < |free[n.b]| && free[n.b][j] == n.k
    requires forall m: Node {:trigger Free(l, live', m)} :: Free(l, live', m) <==> Free(l, live, m) && m != n
    ensures ListsOk(d, l, live', Drop(free, n.b, j))
  {
    hide Free, ListsOk;
    DropLists(d, l, live, live', free, n, j);
  }

  lemma TakeBits(d: nat, l: nat, live: set<Node>, live': set<Node>, bits: seq<bool>, n: Node)
    requires BitsOk(d, l, live, bits) && n.b <= d && InRoot(l, n)
    requires forall m: Node {:trigger Split(l, live', m)} ::
        Split(l, live', m) <==> (Split(l, live, m) != (n.b > 0 && m == Parent(n)))
    ensures n.b > 0 ==> Index(Parent(n)) < |bits| && BitsOk(d, l, live', Flip(bits, Index(Parent(n))))
    ensures n.b == 0 ==> BitsOk(d, l, live', bits)
  {
    hide Split;
    if n.b > 0 {
      InRootBound(l, n);
      assert Pow2(n.b) == 2 * Pow2(n.b - 1);
      FlipBits(d, l, live, l, live', bits, Parent(n));
    } else {
      SameBits(d, l, live, l, live', bits);
    }
  }

  lemma SameBits(d: nat, l: nat, live: set<Node>, l': nat, live': set<Node>, bits: seq<bool>)
    requires BitsOk(d, l, live, bits)
    requires forall m: Node {:trigger Split(l', live', m)} :: Split(l', live', m) <==> Split(l, live, m)
    ensures BitsOk(d, l', live', bits)
  {
    hide Split;
    forall n: Node | n.b < d && n.k < Pow2(n.b)
      ensures Index(n) < |bits| && bits[Index(n)] == Split(l', live', n)
    {
      assert Split(l, live, n) || !Split(l, live, n);
    }
  }

  // ------------------------------------------------------------------ push

  function PushedRep(g: Geometry, x: Rep, n: Node): Rep
    requires g.Valid() && n.b < |x.free| && n.b <= g.Depth()
  {
    x.(free := Append(x.free, n), mem := Pushed(x.mem, g.Head(n.b), g.Addr(n)))
  }

  /** What pushing a block needs: it is clear of the lists. */
  lemma PushedRings(g: Geometry, x: Rep, rest: set<Node>, n: Node)
    requires g.Valid() && RingsOk(g, x.limit, x.free, x.mem) && Scattered(x.limit, x.free)
    requires x.limit <= n.b <= g.Depth() && Clear(x.limit, x.free, n)
    requires forall u :: u in rest ==> u.b <= g.Depth() && Clear(x.limit, x.free, u) && !Overlap(u, n)
    ensures RingsOk(g, x.limit, PushedRep(g, x, n).free, PushedRep(g, x, n).mem)
    ensures SameBlocks(g, x.mem, PushedRep(g, x, n).mem, rest)
  {
    assert |x.free| == g.Depth() + 1;
    hide RingsOk, Scattered, Clear;
    PushRings(g, x.limit, x.free, x.mem, n);
    forall u | u in rest
      ensures SameBlock(g, x.mem, PushedRep(g, x, n).mem, u)
    {
      PushBlock(g, x.limit, x.free, x.mem, n, u);
    }
  }

  /** A popped block is clear of what is left on the lists. */
  lemma PoppedClear(l: nat, free: seq<seq<nat>>, n: Node, j: nat)
    requires Scattered(l, free) && l <= n.b < |free| && j < |free[n.b]| && free[n.b][j] == n.k
    requires SlotLists.NoDup(free[n.b])
    ensures Scattered(l, Drop(free, n.b, j)) && Clear(l, Drop(free, n.b, j), n)
    ensures forall u :: Clear(l, free, u) ==> Clear(l, Drop(free, n.b, j), u) && !Overlap(u, n)
  {
    var f := Drop(free, n.b, j);
    WithoutNoDup(free[n.b], j);
    forall m
      ensures Listed(l, f, m) <==> Listed(l, free, m) && m != n
    {
    }
    assert Listed(l, free, n);
  }

  /** Putting a popped block back restores the lists. */
  lemma PutBackStep(g: Geometry, x: Rep, live: set<Node>, n: Node)
    requires Consistent(g, x, live)
    requires x.limit <= n.b <= g.Depth() && x.free[n.b] != []
    requires n.k == x.free[n.b][|x.free[n.b]| - 1]
    ensures var y := PushedRep(g, Popped(g, x, n, |x.free[n.b]| - 1), n);
            Consistent(g, y, live) && y.free == x.free && SameBlocks(g, x.mem, y.mem, live)
  {
    var j := |x.free[n.b]| - 1;
    var y := Popped(g, x, n, j);
    PoppedRings(g, x, live, n, j);
    ListsScattered(g.Depth(), x.limit, live, x.free);
    forall u | u in live
      ensures u.b <= g.Depth() && Clear(x.limit, x.free, u)
    {
      LiveClear(g, x, live, u);
    }
    PoppedBack(g, x, live, n, j);
    hide RingsOk, Scattered, Clear, Proper, BitsOk, ListsOk;
    PushedRings(g, y, live, n);
    LastAgain(x.free, n);
  }

  lemma PoppedBack(g: Geometry, x: Rep, live: set<Node>, n: Node, j: nat)
    requires g.Valid() && Scattered(x.limit, x.free) && x.limit <= n.b < |x.free|
    requires j < |x.free[n.b]| && x.free[n.b][j] == n.k && SlotLists.NoDup(x.free[n.b])
    requires forall u :: u in live ==> u.b <= g.Depth() && Clear(x.limit, x.free, u)
    ensures var f := Drop(x.free, n.b, j);
            && Scattered(x.limit, f) && Clear(x.limit, f, n)
            && forall u :: u in live ==> u.b <= g.Depth() && Clear(x.limit, f, u) && !Overlap(u, n)
  {
    hide Scattered, Clear;
    PoppedClear(x.limit, x.free, n, j);
  }

  lemma LastAgain(free: seq<seq<nat>>, n: Node)
    requires n.b < |free| && free[n.b] != [] && n.k == free[n.b][|free[n.b]| - 1]
    ensures Append(Drop(free, n.b, |free[n.b]| - 1), n) == free
  {
    var ks := free[n.b];
    assert Without(ks, |ks| - 1) + [n.k] == ks;
  }

  // ------------------------------------------------------------------ splitting

  /** Flipping the bit of a live block and listing its right half leaves its left half live. */
  lemma SplitStep(g: Geometry, x: Rep, live: set<Node>, p: Node)
    requires Consistent(g, x, live) && p in live && p.b < g.Depth()
    ensures Index(p) < |x.bits|
    ensures var y := PushedRep(g, x.(bits := Flip(x.bits, Index(p))), Right(p));
            && Consistent(g, y, live - {p} + {Left(p)})
            && SameBlocks(g, x.mem, y.mem, live - {p})
    ensures Left(p) !in live && InRoot(x.limit, p)
  {
    var d, l, c, s := g.Depth(), x.limit, Left(p), Right(p);
    var live' := live - {p} + {c};
    LiveClear(g, x, live, p);
    HalveProper(d, l, live, p, c);
    forall m: Node
      ensures Free(l, live', m) <==> Free(l, live, m) || m == s
      ensures Split(l, live', m) <==> (Split(l, live, m) != (m == p))
    {
      HalveFree(d, l, live, p, c, m);
      HalveSplit(d, l, live, p, c, m);
    }
    RightClear(g, x, live, p);
    hide Free, Split;
    ListsScattered(d, l, live, x.free);
    InRootBound(l, p);
    FlipBits(d, l, live, l, live', x.bits, p);
    AppendLists(d, l, live, live', x.free, s);
    hide BitsOk, ListsOk, RingsOk;
    PushedRings(g, x, live - {p}, s);
  }

  lemma OverlapSym(n: Node, m: Node)
    ensures Overlap(n, m) <==> Overlap(m, n)
  {
  }

  lemma RightClear(g: Geometry, x: Rep, live: set<Node>, p: Node)
    requires Consistent(g, x, live) && p in live && p.b < g.Depth()
    ensures Clear(x.limit, x.free, Right(p)) && !Free(x.limit, live, Right(p))
    ensures forall u :: u in live - {p} ==> u.b <= g.Depth() && Clear(x.limit, x.free, u) && !Overlap(u, Right(p))
  {
    hide BitsOk, RingsOk, ListsOk, Overlap;
    LiveClear(g, x, live, p);
    OverlapParent(p, Right(p));
    OverlapSym(p, p);
    forall m | Listed(x.limit, x.free, m)
      ensures !Overlap(Right(p), m)
    {
      OverlapChildren(m, p);
      OverlapSym(m, p);
      OverlapSym(m, Right(p));
    }
    forall u | u in live - {p}
      ensures u.b <= g.Depth() && Clear(x.limit, x.free, u) && !Overlap(u, Right(p))
    {
      LiveClear(g, x, live, u);
      OverlapChildren(u, p);
    }
    RightUsed(x.limit, live, p);
  }

  lemma RightUsed(l: nat, live: set<Node>, p: Node)
    requires p in live
    ensures !Free(l, live, Right(p))
  {
    OverlapParent(p, Right(p));
    assert Overlap(p, Right(p)) && Used(live, Right(p));
  }

  // ------------------------------------------------------------------ merging

  /** Where a listed block stands on its list. */
  lemma ListPosition(free: seq<seq<nat>>, l: nat, n: Node) returns (j: nat)
    requires Listed(l, free, n)
    ensures j < |free[n.b]| && free[n.b][j] == n.k
  {
    j :| 0 <= j < |free[n.b]| && free[n.b][j] == n.k;
  }

  /** An unused buddy of a live block is on its list. */
  lemma BuddyListed(g: Geometry, x: Rep, live: set<Node>, n: Node)
    requires Consistent(g, x, live) && n in live && n.b > x.limit && Unused(x.limit, live, Sibling(n))
    ensures Listed(x.limit, x.free, Sibling(n))
  {
    var d, l := g.Depth(), x.limit;
    LiveClear(g, x, live, n);
    InRootParent(l, n);
    OverlapParent(n, n);
    assert Parent(Sibling(n)) == Parent(n);
    InRootParent(l, Sibling(n));
    assert Free(l, live, Sibling(n));
  }

  /** Clearing the parent's bit and unlisting the buddy makes the parent stand for both. */
  lemma MergeStep(g: Geometry, x: Rep, live: set<Node>, n: Node, j: nat)
    requires Consistent(g, x, live) && n in live && n.b > x.limit && Unused(x.limit, live, Sibling(n))
    requires n.b <= g.Depth() && j < |x.free[n.b]| && x.free[n.b][j] == Sibling(n).k
    ensures Index(Parent(n)) < |x.bits|
    ensures Consistent(g, Popped(g, FlippedAbove(x, n), Sibling(n), j), live - {n} + {Parent(n)})
    ensures SameBlocks(g, x.mem, Removed(x.mem, g.Addr(Sibling(n))), live)
    ensures Parent(n) !in live
  {
    hide Unused, Overlap, RingsOk, ListsOk, BitsOk, Free, Split, InRoot, Proper, SameBlocks;
    var d, l, p, s := g.Depth(), x.limit, Parent(n), Sibling(n);
    var live' := live - {n} + {p};
    PoppedRings(g, x, live, s, j);
    MergeProper(d, l, live, n);
    MergeChanges(d, l, live, n);
    ParentBound(g, x, live, n);
    hide Removed, Index;
    FlipBits(d, l, live, l, live', x.bits, p);
    DropLists(d, l, live, live', x.free, s, j);
  }

  lemma ParentBound(g: Geometry, x: Rep, live: set<Node>, n: Node)
    requires Consistent(g, x, live) && n in live && n.b > 0
    ensures Parent(n).b < g.Depth() && Parent(n).k < Pow2(n.b - 1)
  {
    LiveClear(g, x, live, n);
    InRootBound(x.limit, n);
    assert Pow2(n.b) == 2 * Pow2(n.b - 1);
  }

  lemma MergeChanges(d: nat, l: nat, live: set<Node>, n: Node)
    requires Proper(d, l, live) && n in live && n.b > l && Unused(l, live, Sibling(n))
    ensures forall m: Node {:trigger Free(l, live - {n} + {Parent(n)}, m)} ::
              Free(l, live - {n} + {Parent(n)}, m) <==> Free(l, live, m) && m != Sibling(n)
    ensures forall m: Node {:trigger Split(l, live - {n} + {Parent(n)}, m)} ::
              Split(l, live - {n} + {Parent(n)}, m) <==> (Split(l, live, m) != (m == Parent(n)))
  {
    var p, s, live' := Parent(n), Sibling(n), live - {n} + {Parent(n)};
    MergeProper(d, l, live, n);
    hide Unused, Overlap, Free, Split;
    forall m: Node
      ensures Free(l, live', m) <==> Free(l, live, m) && m != s
      ensures Split(l, live', m) <==> (Split(l, live, m) != (m == p))
    {
      HalveFree(d, l, live', p, n, m);
      HalveSplit(d, l, live', p, n, m);
      if m == s { NotFreeInside(d, l, live', p, s); }
    }
  }

  lemma NotFreeInside(d: nat, l: nat, live: set<Node>, p: Node, s: Node)
    requires Proper(d, l, live) && p in live && s.b > 0 && Parent(s) == p
    ensures !Free(l, live, s)
  {
    OverlapParent(p, s);
    LiveInside(d, l, live, p, s);
  }

  // ------------------------------------------------------------------ releasing

  /** A live block whose buddy is in use, or the root, becomes free. */
  lemma ReleaseStep(g: Geometry, x: Rep, live: set<Node>, n: Node)
    requires Consistent(g, x, live) && n in live
    requires n.b > x.limit ==> Used(live, Sibling(n))
    ensures x.limit <= n.b <= g.Depth() && (n.b > 0 ==> Index(Parent(n)) < |x.bits|)
    ensures var y := PushedRep(g, FlippedAbove(x, n), n);
            Consistent(g, y, live - {n}) && SameBlocks(g, x.mem, y.mem, live - {n})
  {
    var d, l, rest := g.Depth(), x.limit, live - {n};
    LiveClear(g, x, live, n);
    ReleaseFree(d, l, live, n);
    forall m: Node
      ensures Free(l, rest, m) <==> Free(l, live, m) || m == n
      ensures Split(l, rest, m) <==> (Split(l, live, m) != (n.b > 0 && m == Parent(n)))
    {
      TakeFree(l, rest, n, m);
      TakeSplit(l, rest, n, m);
    }
    TakeFree(l, rest, n, n);
    forall u | u in rest
      ensures u.b <= d && Clear(l, x.free, u) && !Overlap(u, n)
    {
      LiveClear(g, x, live, u);
    }
    hide Free, Split, Clear;
    ListsScattered(d, l, live, x.free);
    TakeBits(d, l, live, rest, x.bits, n);
    AppendLists(d, l, live, rest, x.free, n);
    hide BitsOk, ListsOk, RingsOk;
    PushedRings(g, x, rest, n);
  }

  // ------------------------------------------------------------------ growing the root

  /** The root is free: nothing else is listed. */
  lemma EmptyLists(g: Geometry, x: Rep)
    requires Consistent(g, x, {})
    ensures x.limit <= g.Depth() && |x.free| == g.Depth() + 1
    ensures x.free[x.limit] == [0]
    ensures forall b :: x.limit < b <= g.Depth() ==> x.free[b] == []
  {
    var l := x.limit;
    forall n: Node
      ensures Free(l, {}, n) <==> n == Node(l, 0)
    {
      EmptyTree(l, n);
    }
    forall b | l < b <= g.Depth()
      ensures x.free[b] == []
    {
      forall k: nat
        ensures k !in x.free[b]
      {
        assert Listed(l, x.free, Node(b, k)) <==> Free(l, {}, Node(b, k));
      }
      FirstMember(x.free[b]);
    }
    forall k: nat
      ensures k in x.free[l] <==> k == 0
    {
      assert Listed(l, x.free, Node(l, k)) <==> Free(l, {}, Node(l, k));
    }
    OneMember(x.free[l], 0);
  }

  lemma FirstMember(ks: seq<nat>)
    ensures ks == [] || ks[0] in ks
  {
  }

  lemma OneMember(ks: seq<nat>, v: nat)
    requires SlotLists.NoDup(ks)
    requires forall k: nat :: k in ks <==> k == v
    ensures ks == [v]
  {
    assert v in ks;
    var i :| 0 <= i < |ks| && ks[i] == v;
    var j := if i == 0 then |ks| - 1 else 0;
    assert ks[j] in ks;
    assert ks[j] == v;
  }

  /** The representation with the root one bucket up and an empty list there. */
  function Raised(g: Geometry, y: Rep): Rep
    requires 0 < y.limit <= |y.free|
  {
    Rep(y.limit - 1, y.bits, y.free[y.limit - 1 := []], Cleared(y.mem, g.Head(y.limit - 1)))
  }

  /** Unlisting an unused root and listing the root twice its size. */
  lemma GrowEmptyStep(g: Geometry, x: Rep)
    requires Consistent(g, x, {}) && x.limit > 0
    ensures x.limit <= g.Depth() && |x.free| == g.Depth() + 1 && x.free[x.limit] == [0]
    ensures Consistent(g, PushedRep(g, Raised(g, Popped(g, x, Node(x.limit, 0), 0)), Node(x.limit - 1, 0)), {})
  {
    hide RingsOk, Clear, Scattered, ListsOk, BitsOk, Split, Removed, Cleared, Pushed;
    EmptyLists(g, x);
    GrowEmptyMemory(g, x);
    GrowEmptyBits(g.Depth(), x.limit, x.bits);
    RootListed(g.Depth(), x.limit - 1,
        PushedRep(g, Raised(g, Popped(g, x, Node(x.limit, 0), 0)), Node(x.limit - 1, 0)).free);
  }

  lemma GrowEmptyBits(d: nat, l: nat, bits: seq<bool>)
    requires l > 0 && BitsOk(d, l, {}, bits)
    ensures BitsOk(d, l - 1, {}, bits)
  {
    hide BitsOk, Split;
    forall m: Node
      ensures Split(l - 1, {}, m) <==> Split(l, {}, m)
    {
      EmptyTree(l - 1, m);
      EmptyTree(l, m);
    }
    SameBits(d, l, {}, l - 1, {}, bits);
  }

  lemma GrowEmptyMemory(g: Geometry, x: Rep)
    requires Consistent(g, x, {}) && x.limit > 0
    ensures x.limit <= g.Depth() && |x.free| == g.Depth() + 1 && x.free[x.limit] == [0]
    ensures var y := PushedRep(g, Raised(g, Popped(g, x, Node(x.limit, 0), 0)), Node(x.limit - 1, 0));
            && RingsOk(g, y.limit, y.free, y.mem)
            && y.free[x.limit - 1] == [0]
            && forall b :: x.limit - 1 < b <= g.Depth() ==> y.free[b] == []
  {
    hide Clear, Scattered, ListsOk, BitsOk, Circle;
    var l := x.limit;
    EmptyLists(g, x);
    PoppedRings(g, x, {}, Node(l, 0), 0);
    var y := Popped(g, x, Node(l, 0), 0);
    ClearRings(g, l, y.free, y.mem);
    var z := Raised(g, y);
    NothingListed(g, z);
    PushedRings(g, z, {}, Node(l - 1, 0));
  }

  lemma NothingListed(g: Geometry, z: Rep)
    requires g.Valid() && z.limit <= g.Depth() && |z.free| == g.Depth() + 1
    requires forall b :: z.limit <= b <= g.Depth() ==> z.free[b] == []
    ensures Scattered(z.limit, z.free)
    ensures forall n :: Clear(z.limit, z.free, n)
  {
  }

  lemma RootListed(d: nat, l: nat, free: seq<seq<nat>>)
    requires l <= d && |free| == d + 1 && free[l] == [0]
    requires forall b :: l < b <= d ==> free[b] == []
    ensures ListsOk(d, l, {}, free)
  {
    forall n: Node | n.b <= d
      ensures Listed(l, free, n) <==> Free(l, {}, n)
    {
      EmptyTree(l, n);
    }
  }

  /** Listing the sibling of a used root and setting the bit above the new root. */
  lemma GrowUsedStep(g: Geometry, x: Rep, live: set<Node>)
    requires Consistent(g, x, live) && x.limit > 0 && Used(live, Node(x.limit, 0))
    ensures x.limit <= g.Depth() && |x.free| == g.Depth() + 1
    ensures x.limit > 1 ==> Index(Node(x.limit - 2, 0)) < |x.bits|
    ensures var z := Raised(g, PushedRep(g, x, Node(x.limit, 1)));
            && Consistent(g, FlippedAbove(z, Node(x.limit - 1, 0)), live)
            && SameBlocks(g, x.mem, z.mem, live)
  {
    var d, l, n := g.Depth(), x.limit, Node(x.limit, 1);
    GrowUsedMemory(g, x, live);
    GrowProper(d, l, live);
    GrowUsedLists(g, x, live);
    hide RingsOk, ListsOk, Proper, Used;
    forall m: Node
      ensures Split(l - 1, live, m) <==> (Split(l, live, m) != (l > 1 && m == Node(l - 2, 0)))
    {
      GrowSplit(d, l, live, m);
    }
    hide Split;
    if l > 1 {
      Pow2Mono(0, l - 2);
      FlipBits(d, l, live, l - 1, live, x.bits, Node(l - 2, 0));
    } else {
      SameBits(d, l, live, l - 1, live, x.bits);
    }
    hide BitsOk;
  }

  lemma GrowUsedMemory(g: Geometry, x: Rep, live: set<Node>)
    requires Consistent(g, x, live) && x.limit > 0
    ensures x.limit <= g.Depth() && |x.free| == g.Depth() + 1
    ensures var z := Raised(g, PushedRep(g, x, Node(x.limit, 1)));
            RingsOk(g, z.limit, z.free, z.mem) && SameBlocks(g, x.mem, z.mem, live)
  {
    var l, n := x.limit, Node(x.limit, 1);
    var y := PushedRep(g, x, n);
    OutsideClear(g, x, live);
    ListsScattered(g.Depth(), l, live, x.free);
    hide Clear, Scattered, Proper, BitsOk, ListsOk;
    PushedRings(g, x, live, n);
    ClearRings(g, l, y.free, y.mem);
    hide RingsOk;
    ClearedHeaders(g, l, y.mem, live);
  }

  lemma GrowUsedLists(g: Geometry, x: Rep, live: set<Node>)
    requires Consistent(g, x, live) && x.limit > 0 && Used(live, Node(x.limit, 0))
    ensures x.limit <= g.Depth() && |x.free| == g.Depth() + 1
    ensures ListsOk(g.Depth(), x.limit - 1, live, Append(x.free, Node(x.limit, 1))[x.limit - 1 := []])
  {
    var d, l := g.Depth(), x.limit;
    forall m: Node
      ensures Free(l - 1, live, m) <==> Free(l, live, m) || m == Node(l, 1)
    {
      GrowFree(d, l, live, m);
    }
    GrowLists(g, l, live, x.free);
  }

  lemma ClearedHeaders(g: Geometry, l: nat, m: Memory, live: set<Node>)
    requires g.Valid() && 0 < l <= g.Depth()
    ensures SameBlocks(g, m, Cleared(m, g.Head(l - 1)), live)
  {
    forall u | u in live && u.b <= g.Depth()
      ensures SameBlock(g, m, Cleared(m, g.Head(l - 1)), u)
    {
      ClearedCircle(m, g.Head(l - 1));
      forall a | Inside(g, u, a)
        ensures At(m, a) == At(Cleared(m, g.Head(l - 1)), a)
      {
        OffHead(g, u, l - 1, a);
      }
    }
  }

  lemma OutsideClear(g: Geometry, x: Rep, live: set<Node>)
    requires Consistent(g, x, live) && x.limit > 0
    ensures Clear(x.limit, x.free, Node(x.limit, 1))
    ensures forall u :: u in live ==> u.b <= g.Depth() && Clear(x.limit, x.free, u) && !Overlap(u, Node(x.limit, 1))
  {
    var l, n := x.limit, Node(x.limit, 1);
    forall m | Listed(l, x.free, m)
      ensures !Overlap(n, m)
    {
      assert Free(l, live, m);
      if Overlap(n, m) { OverlapRoot(l, n, m); }
    }
    forall u | u in live
      ensures u.b <= g.Depth() && Clear(l, x.free, u) && !Overlap(u, n)
    {
      LiveClear(g, x, live, u);
      if Overlap(u, n) { OverlapRoot(l, u, n); }
    }
  }

  lemma GrowLists(g: Geometry, l: nat, live: set<Node>, free: seq<seq<nat>>)
    requires g.Valid() && 0 < l <= g.Depth() && ListsOk(g.Depth(), l, live, free)
    requires forall m: Node {:trigger Free(l - 1, live, m)} ::
        Free(l - 1, live, m) <==> Free(l, live, m) || m == Node(l, 1)
    requires !Free(l, live, Node(l, 1)) && !Free(l, live, Node(l - 1, 0))
    ensures ListsOk(g.Depth(), l - 1, live, Append(free, Node(l, 1))[l - 1 := []])
  {
    var d, f, n := g.Depth(), Append(free, Node(l, 1))[l - 1 := []], Node(l, 1);
    assert !Listed(l, free, n);
    forall m: Node | m.b <= d
      ensures Listed(l - 1, f, m) <==> Free(l - 1, live, m)
    {
      assert Listed(l, free, m) <==> Free(l, live, m);
    }
  }

  // ------------------------------------------------------------------ the first block

  /** One block of the smallest size at the start of the reserved memory. */
  lemma InitStep(g: Geometry, bits: seq<bool>, free: seq<seq<nat>>, m: Memory)
    requires g.Valid() && |free| == g.Depth() + 1 && |bits| == Pow2(g.Depth())
    requires forall i :: 0 <= i < |bits| ==> !bits[i]
    ensures var d := g.Depth();
            Consistent(g, PushedRep(g, Rep(d, bits, free[d := []], Cleared(m, g.Head(d))), Node(d, 0)), {})
  {
    var d := g.Depth();
    var z := Rep(d, bits, free[d := []], Cleared(m, g.Head(d)));
    ClearedCircle(m, g.Head(d));
    assert Ring(g, d, []) == [g.Head(d)];
    NothingListed(g, z);
    assert RingsOk(g, d, z.free, z.mem);
    var w := PushedRep(g, z, Node(d, 0));
    forall n: Node | n.b < d && n.k < Pow2(n.b)
      ensures Index(n) < |bits| && bits[Index(n)] == Split(d, {}, n)
    {
      IndexBound(n, d);
      EmptyTree(d, n);
    }
    RootListed(d, d, w.free);
    hide RingsOk, Clear, Scattered, ListsOk, Split, Index, Pow2;
    PushedRings(g, z, {}, Node(d, 0));
  }

  // ------------------------------------------------------------------ headers and links

  lemma LinksPopped(g: Geometry, x: Rep, n: Node, j: nat, top: nat)
    requires g.Valid() && LinksBelow(g, x, top) && n.b < |x.free| && n.b <= g.Depth() && j < |x.free[n.b]|
    ensures LinksBelow(g, Popped(g, x, n, j), top)
  {
    var y := Popped(g, x, n, j);
    forall m | Listed(y.limit, y.free, m) && m.b <= g.Depth()
      ensures g.Addr(m) + LINK_SIZE <= top
    {
      assert Listed(x.limit, x.free, m);
    }
  }

  lemma LinksPushed(g: Geometry, x: Rep, n: Node, top: nat)
    requires g.Valid() && LinksBelow(g, x, top) && n.b < |x.free| && n.b <= g.Depth() && g.Addr(n) + LINK_SIZE <= top
    ensures LinksBelow(g, PushedRep(g, x, n), top)
  {
    var y := PushedRep(g, x, n);
    forall m | Listed(y.limit, y.free, m) && m.b <= g.Depth()
      ensures g.Addr(m) + LINK_SIZE <= top
    {
      assert Listed(x.limit, x.free, m) || m == n;
    }
  }

  lemma LinksRaised(g: Geometry, x: Rep, top: nat)
    requires g.Valid() && LinksBelow(g, x, top) && 0 < x.limit <= |x.free|
    ensures LinksBelow(g, Raised(g, x), top)
  {
    var y := Raised(g, x);
    forall m | Listed(y.limit, y.free, m) && m.b <= g.Depth()
      ensures g.Addr(m) + LINK_SIZE <= top
    {
      assert Listed(x.limit, x.free, m);
    }
  }

  /** Writing the header of a live block disturbs neither lists nor other headers. */
  lemma HeaderStep(g: Geometry, x: Rep, live: set<Node>, n: Node, v: nat)
    requires Consistent(g, x, live) && n in live
    ensures n.b <= g.Depth() && Consistent(g, x.(mem := x.mem[g.Addr(n) := v]), live)
    ensures SameBlocks(g, x.mem, x.mem[g.Addr(n) := v], live - {n})
  {
    var m' := x.mem[g.Addr(n) := v];
    LiveClear(g, x, live, n);
    forall u | u in live - {n}
      ensures u.b <= g.Depth() && SameBlock(g, x.mem, m', u)
    {
      LiveClear(g, x, live, u);
      BlocksApart(g, u, n);
    }
    forall b | x.limit <= b <= g.Depth()
      ensures Circle(m', Ring(g, b, x.free[b]))
    {
      ClearRing(g, x.limit, x.free, n, b);
      var r := Ring(g, b, x.free[b]);
      hide Circle, Ring, Proper, ListsOk, BitsOk;
      assert forall i :: 0 <= i < |r| ==> SameCell(x.mem, m', r[i]);
      CircleFrame(x.mem, m', r);
    }
  }

  // ------------------------------------------------------------------ consequences

  /** With nothing live, the whole root is the only free block. */
  lemma AllFreed(g: Geometry, x: Rep, n: Node)
    requires Consistent(g, x, {}) && n.b <= g.Depth()
    ensures Listed(x.limit, x.free, n) <==> n == Node(x.limit, 0)
    ensures x.free[x.limit] == [0]
  {
    EmptyLists(g, x);
    EmptyTree(x.limit, n);
    assert Listed(x.limit, x.free, n) <==> Free(x.limit, {}, n);
  }

  /** Live blocks share no byte with each other or with the links of listed blocks, and
      payloads are aligned to 16 bytes. */
  lemma LiveBlocksSafe(g: Geometry, x: Rep, live: set<Node>, u: Node, v: Node)
    requires Consistent(g, x, live) && u in live && v != u
    requires v in live || (Listed(x.limit, x.free, v) && v.b <= g.Depth())
    ensures u.b <= g.Depth() && v.b <= g.Depth()
    ensures g.Addr(u) + g.Size(u.b) <= g.Addr(v) || g.Addr(v) + g.Size(v.b) <= g.Addr(u)
    ensures (g.Addr(u) + HEADER_SIZE) % 16 == 0
  {
    LiveClear(g, x, live, u);
    if v in live { LiveClear(g, x, live, v); }
    BlocksApart(g, u, v);
    AddrAligned(g, u);
  }

  /** Coalescing is complete: the lists never hold both halves of a block. */
  lemma NoBuddiesListed(g: Geometry, x: Rep, live: set<Node>, n: Node)
    requires Consistent(g, x, live) && Listed(x.limit, x.free, n) && x.limit < n.b <= g.Depth()
    ensures !Listed(x.limit, x.free, Sibling(n))
  {
    assert Free(x.limit, live, n);
    NoFreeBuddies(x.limit, live, n);
    assert Listed(x.limit, x.free, Sibling(n)) <==> Free(x.limit, live, Sibling(n));
  }

  /** A live or listed block around `leaf`. */
  ghost predicate Tile(x: Rep, live: set<Node>, n: Node, leaf: Node) {
    (n in live || Listed(x.limit, x.free, n)) && n.b <= leaf.b && Overlap(n, leaf)
  }

  /** Conservation: live and listed blocks tile the root, each smallest block covered once. */
  lemma Tiled(g: Geometry, x: Rep, live: set<Node>, leaf: Node)
    requires Consistent(g, x, live) && InRoot(x.limit, leaf) && leaf.b == g.Depth()
    ensures exists n :: Tile(x, live, n, leaf)
    ensures forall n, m :: Tile(x, live, n, leaf) && Tile(x, live, m, leaf) ==> n == m
  {
    TiledOnce(g.Depth(), x.limit, live, leaf);
    forall n: Node | n.b <= leaf.b
      ensures Covers(x.limit, live, n, leaf) <==> Tile(x, live, n, leaf)
    {
      assert Listed(x.limit, x.free, n) <==> Free(x.limit, live, n);
    }
    var n :| Covers(x.limit, live, n, leaf);
    assert Tile(x, live, n, leaf);
  }
}
