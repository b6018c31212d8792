/** The block tree of the buddy allocator, determined by its root and its live blocks:
    which blocks are unused, which are free-listed, which "is split" bits are set, and
    how each elementary step of the allocator changes that. */
module BuddyTree {

  /** Block `k` of bucket `b`, counted from the start of the address range. */
  datatype Node = Node(b: nat, k: nat)

  function Left(n: Node): Node { Node(n.b + 1, 2 * n.k) }
  function Right(n: Node): Node { Node(n.b + 1, 2 * n.k + 1) }

  function Parent(n: Node): Node
    requires n.b > 0
  {
    Node(n.b - 1, n.k / 2)
  }

  function Sibling(n: Node): Node { Node(n.b, if n.k % 2 == 0 then n.k + 1 else n.k - 1) }

  /** The position of the ancestor `d` levels up. */
  function Up(k: nat, d: nat): nat {
    if d == 0 then k else Up(k / 2, d - 1)
  }

  lemma {:induction false} UpSucc(k: nat, d: nat)
    ensures Up(k, d + 1) == Up(k, d) / 2
    decreases d
  {
    if d > 0 { UpSucc(k / 2, d - 1); }
  }

  lemma {:induction false} UpZero(d: nat)
    ensures Up(0, d) == 0
  {
    if d > 0 { UpZero(d - 1); }
  }

  /** One of the two blocks contains the other. */
  predicate Overlap(n: Node, m: Node) {
    if n.b <= m.b then Up(m.k, m.b - n.b) == n.k else Up(n.k, n.b - m.b) == m.k
  }

  predicate InRoot(l: nat, n: Node) { n.b >= l && Up(n.k, n.b - l) == 0 }

  ghost predicate Used(live: set<Node>, n: Node) {
    exists u :: u in live && Overlap(u, n)
  }

  /** UNUSED: no live block inside or around; nodes above the current root count as unused. */
  ghost predicate Unused(l: nat, live: set<Node>, n: Node) { n.b < l || !Used(live, n) }

  /** What the bit of a node has to say: exactly one child is unused. */
  ghost predicate Split(l: nat, live: set<Node>, n: Node) {
    Unused(l, live, Left(n)) != Unused(l, live, Right(n))
  }

  /** The maximal unused blocks below the root: those belong on the free lists. */
  ghost predicate Free(l: nat, live: set<Node>, n: Node) {
    InRoot(l, n) && Unused(l, live, n) && (n.b == l || !Unused(l, live, Parent(n)))
  }

  /** Live blocks lie below the root, at most `d` deep, and none contains another. */
  ghost predicate Proper(d: nat, l: nat, live: set<Node>) {
    && l <= d
    && (forall u :: u in live ==> u.b <= d && InRoot(l, u))
    && (forall u, v {:trigger Overlap(u, v)} :: u in live && v in live && u != v ==> !Overlap(u, v))
  }

  // ------------------------------------------------------------------ overlap

  /** A block overlaps a parent exactly when it overlaps a child. */
  lemma OverlapChildren(u: Node, p: Node)
    ensures Overlap(u, p) <==> Overlap(u, Left(p)) || Overlap(u, Right(p))
    ensures u.b <= p.b ==> (Overlap(u, p) <==> Overlap(u, Left(p))) && (Overlap(u, p) <==> Overlap(u, Right(p)))
    ensures u.b > p.b ==> !(Overlap(u, Left(p)) && Overlap(u, Right(p)))
  {
    if u.b > p.b {
      UpSucc(u.k, u.b - p.b - 1);
    }
  }

  lemma OverlapParent(u: Node, n: Node)
    requires n.b > 0
    ensures Overlap(u, n) ==> Overlap(u, Parent(n))
    ensures u.b < n.b ==> (Overlap(u, Parent(n)) <==> Overlap(u, n))
  {
    OverlapChildren(u, Parent(n));
    assert n == Left(Parent(n)) || n == Right(Parent(n));
  }

  /** Overlap with a block carries over to the blocks around it. */
  lemma {:induction false} OverlapUp(u: Node, n: Node, a: Node)
    requires Overlap(u, n) && a.b <= n.b && Overlap(a, n)
    ensures Overlap(u, a)
    decreases n.b
  {
    if a.b < n.b {
      OverlapParent(u, n);
      OverlapParent(a, n);
      OverlapUp(u, Parent(n), a);
    } else {
      assert a == n;
    }
  }

  lemma UsedChildren(live: set<Node>, p: Node)
    ensures Used(live, p) <==> Used(live, Left(p)) || Used(live, Right(p))
  {
    forall u | u in live
      ensures Overlap(u, p) <==> Overlap(u, Left(p)) || Overlap(u, Right(p))
    {
      OverlapChildren(u, p);
    }
  }

  lemma UsedUp(live: set<Node>, n: Node, a: Node)
    requires Used(live, n) && a.b <= n.b && Overlap(a, n)
    ensures Used(live, a)
  {
    var u :| u in live && Overlap(u, n);
    OverlapUp(u, n, a);
  }

  /** Blocks inside the root, seen from a parent. */
  lemma InRootParent(l: nat, n: Node)
    requires n.b > l
    ensures InRoot(l, n) <==> InRoot(l, Parent(n))
  {
  }

  // ------------------------------------------------------------------ taking a free block

  lemma UsedPlus(live: set<Node>, n: Node, m: Node)
    ensures Used(live + {n}, m) <==> Used(live, m) || Overlap(n, m)
  {
    if Used(live, m) {
      var u :| u in live && Overlap(u, m);
      assert u in live + {n};
    }
    if Overlap(n, m) { assert n in live + {n}; }
  }

  /** Around a free block, everything up to the root is already used. */
  lemma FreeBelow(l: nat, live: set<Node>, n: Node, a: Node)
    requires Free(l, live, n) && l <= a.b < n.b && Overlap(a, n)
    ensures Used(live, a)
  {
    OverlapParent(a, n);
    UsedUp(live, Parent(n), a);
  }

  /** How one node's flag changes when the free block `n` becomes live. */
  lemma TakeUnused(l: nat, live: set<Node>, n: Node, m: Node)
    requires Free(l, live, n)
    ensures Unused(l, live + {n}, m) <==> Unused(l, live, m) && !(n.b <= m.b && Overlap(n, m))
  {
    UsedPlus(live, n, m);
    if Overlap(n, m) && l <= m.b < n.b { FreeBelow(l, live, n, m); }
  }

  /** The unused part of a block is unused. */
  lemma UnusedInside(l: nat, live: set<Node>, n: Node, m: Node)
    requires l <= n.b && Unused(l, live, n) && n.b <= m.b && Overlap(n, m)
    ensures Unused(l, live, m)
  {
    if Used(live, m) { UsedUp(live, m, n); }
  }

  lemma TakeSplit(l: nat, live: set<Node>, n: Node, m: Node)
    requires Free(l, live, n)
    ensures Split(l, live + {n}, m) <==> (Split(l, live, m) != (n.b > 0 && m == Parent(n)))
  {
    TakeUnused(l, live, n, Left(m));
    TakeUnused(l, live, n, Right(m));
    OverlapChildren(n, m);
    if n.b <= m.b && Overlap(n, m) {
      UnusedInside(l, live, n, Left(m));
      UnusedInside(l, live, n, Right(m));
    } else if n.b == m.b + 1 && Overlap(n, m) {
      assert m == Parent(n);
    }
  }

  lemma TakeFree(l: nat, live: set<Node>, n: Node, m: Node)
    requires Free(l, live, n)
    ensures Free(l, live + {n}, m) <==> Free(l, live, m) && m != n
  {
    TakeUnused(l, live, n, m);
    if m.b > l {
      TakeUnused(l, live, n, Parent(m));
      OverlapParent(n, m);
      if n.b < m.b && Overlap(n, m) {
        UnusedInside(l, live, n, Parent(m));
      } else if n.b == m.b && Overlap(n, m) {
        assert m == n;
      }
    } else if n.b <= m.b && Overlap(n, m) && InRoot(l, m) {
      assert m == n;
    }
  }

  lemma TakeProper(d: nat, l: nat, live: set<Node>, n: Node)
    requires Proper(d, l, live) && Free(l, live, n) && n.b <= d
    ensures Proper(d, l, live + {n}) && n !in live
  {
    forall u | u in live
      ensures !Overlap(u, n) && !Overlap(n, u)
    {
    }
  }

  /** Releasing a live block whose buddy is in use, or which is the root, frees just it:
      taking it again would lead back. */
  lemma ReleaseFree(d: nat, l: nat, live: set<Node>, n: Node)
    requires Proper(d, l, live) && n in live
    requires n.b > l ==> Used(live, Sibling(n))
    ensures Proper(d, l, live - {n})
    ensures Free(l, live - {n}, n)
    ensures live - {n} + {n} == live
  {
    var rest := live - {n};
    forall u | u in rest
      ensures !Overlap(u, n)
    {
    }
    if n.b > l {
      var u :| u in live && Overlap(u, Sibling(n));
      OverlapChildren(n, Parent(n));
      assert !Overlap(n, Sibling(n));
      assert u in rest;
      OverlapParent(u, Sibling(n));
      assert Used(rest, Parent(n));
    }
  }

  // ------------------------------------------------------------------ halving a live block

  predicate ChildOf(c: Node, p: Node) { c.b == p.b + 1 && c.k / 2 == p.k }

  /** A live block shrinks to one of its halves: the other half becomes unused. */
  lemma HalveUsed(d: nat, l: nat, live: set<Node>, p: Node, c: Node, m: Node)
    requires Proper(d, l, live) && p in live && ChildOf(c, p)
    ensures Used(live - {p} + {c}, m) <==> Used(live, m) && !(c.b <= m.b && Overlap(Sibling(c), m))
  {
    var s := Sibling(c);
    var rest := live - {p};
    UsedPlus(rest, c, m);
    UsedPlus(rest, p, m);
    assert rest + {p} == live;
    assert {c, s} == {Left(p), Right(p)};
    OverlapChildren(m, p);
    assert forall x, y :: Overlap(x, y) <==> Overlap(y, x);
    if c.b <= m.b && Overlap(s, m) {
      if Used(rest, m) {
        var u :| u in rest && Overlap(u, m);
        OverlapUp(u, m, p);
        assert false;
      }
    } else if m.b < c.b {
      OverlapChildren(m, p);
    }
  }

  lemma HalveUnused(d: nat, l: nat, live: set<Node>, p: Node, c: Node, m: Node)
    requires Proper(d, l, live) && p in live && ChildOf(c, p)
    ensures Unused(l, live - {p} + {c}, m) <==> Unused(l, live, m) || (c.b <= m.b && Overlap(Sibling(c), m))
  {
    HalveUsed(d, l, live, p, c, m);
  }

  /** Everything inside a live block counts as used. */
  lemma LiveInside(d: nat, l: nat, live: set<Node>, p: Node, m: Node)
    requires Proper(d, l, live) && p in live && p.b <= m.b && Overlap(p, m)
    ensures !Unused(l, live, m)
  {
  }

  lemma HalveSplit(d: nat, l: nat, live: set<Node>, p: Node, c: Node, m: Node)
    requires Proper(d, l, live) && p in live && ChildOf(c, p)
    ensures Split(l, live - {p} + {c}, m) <==> (Split(l, live, m) != (m == p))
  {
    var s := Sibling(c);
    HalveUnused(d, l, live, p, c, Left(m));
    HalveUnused(d, l, live, p, c, Right(m));
    OverlapChildren(s, m);
    OverlapChildren(s, p);
    if s.b <= m.b && Overlap(s, m) {
      OverlapUp(m, m, s);
      HalfInside(p, c, m);
      LiveInside(d, l, live, p, Left(m));
      LiveInside(d, l, live, p, Right(m));
    } else if m == p {
      LiveInside(d, l, live, p, Left(p));
      LiveInside(d, l, live, p, Right(p));
    }
  }

  lemma HalfInside(p: Node, c: Node, m: Node)
    requires ChildOf(c, p) && c.b <= m.b && Overlap(Sibling(c), m)
    ensures p.b <= m.b && Overlap(p, m) && Overlap(p, Left(m)) && Overlap(p, Right(m))
  {
    var s := Sibling(c);
    UpSucc(m.k, m.b - s.b);
    OverlapChildren(p, m);
  }

  lemma HalveFree(d: nat, l: nat, live: set<Node>, p: Node, c: Node, m: Node)
    requires Proper(d, l, live) && p in live && ChildOf(c, p)
    ensures Free(l, live - {p} + {c}, m) <==> Free(l, live, m) || m == Sibling(c)
  {
    var s := Sibling(c);
    HalveUnused(d, l, live, p, c, m);
    assert InRoot(l, p);
    if m == s {
      assert Parent(s) == p;
      HalveUnused(d, l, live, p, c, p);
      LiveInside(d, l, live, p, p);
    } else {
      if m.b > l {
        HalveUnused(d, l, live, p, c, Parent(m));
        OverlapParent(s, m);
      }
      if s.b <= m.b && Overlap(s, m) {
        HalfInside(p, c, m);
        LiveInside(d, l, live, p, m);
        assert s.b < m.b;
      }
    }
  }

  lemma HalveProper(d: nat, l: nat, live: set<Node>, p: Node, c: Node)
    requires Proper(d, l, live) && p in live && ChildOf(c, p) && c.b <= d
    ensures Proper(d, l, live - {p} + {c})
    ensures c !in live
    ensures (live - {p} + {c}) - {c} + {p} == live
  {
    OverlapParent(p, c);
    forall u | u in live && u != p
      ensures !Overlap(u, c) && !Overlap(c, u)
    {
      OverlapParent(u, c);
      assert Overlap(u, c) <==> Overlap(c, u);
    }
    InRootParent(l, c);
  }

  /** A live block with an unused buddy can stand for its parent: halving that gives it back. */
  lemma MergeProper(d: nat, l: nat, live: set<Node>, n: Node)
    requires Proper(d, l, live) && n in live && n.b > l && Unused(l, live, Sibling(n))
    ensures Proper(d, l, live - {n} + {Parent(n)})
    ensures ChildOf(n, Parent(n)) && Parent(n) !in live
    ensures (live - {n} + {Parent(n)}) - {Parent(n)} + {n} == live
  {
    var p := Parent(n);
    OverlapParent(n, n);
    InRootParent(l, n);
    forall u | u in live && u != n
      ensures !Overlap(u, p) && !Overlap(p, u)
    {
      OverlapChildren(u, p);
      assert {n, Sibling(n)} == {Left(p), Right(p)};
      assert Overlap(u, p) <==> Overlap(p, u);
    }
  }

  // ------------------------------------------------------------------ growing the root

  /** The bit above the root says whether the root is in use. */
  lemma RootBit(d: nat, l: nat, live: set<Node>)
    requires Proper(d, l, live) && l > 0
    ensures Split(l, live, Node(l - 1, 0)) <==> Used(live, Node(l, 0))
    ensures !Used(live, Node(l, 0)) <==> live == {}
    ensures !Used(live, Node(l, 1))
  {
    forall u | u in live
      ensures Overlap(u, Node(l, 0)) && !Overlap(u, Node(l, 1))
    {
    }
    if live != {} {
      var u :| u in live;
      assert Overlap(u, Node(l, 0));
    }
    assert Left(Node(l - 1, 0)) == Node(l, 0) && Right(Node(l - 1, 0)) == Node(l, 1);
  }

  /** With nothing live, the root is the one free block and no bit is set. */
  lemma EmptyTree(l: nat, m: Node)
    ensures Free(l, {}, m) <==> m == Node(l, 0)
    ensures !Split(l, {}, m)
  {
  }

  lemma GrowInRoot(l: nat, n: Node)
    requires l > 0
    ensures InRoot(l, n) ==> InRoot(l - 1, n)
    ensures InRoot(l - 1, n) && n.b >= l ==> Up(n.k, n.b - l) <= 1
  {
    if n.b >= l { UpSucc(n.k, n.b - l); }
  }

  lemma GrowProper(d: nat, l: nat, live: set<Node>)
    requires Proper(d, l, live) && l > 0
    ensures Proper(d, l - 1, live)
  {
    forall u | u in live
      ensures InRoot(l - 1, u)
    {
      GrowInRoot(l, u);
    }
  }

  /** Doubling a used root: its new sibling is free, and the bit two levels up appears. */
  lemma GrowSplit(d: nat, l: nat, live: set<Node>, m: Node)
    requires Proper(d, l, live) && l > 0 && Used(live, Node(l, 0))
    ensures Split(l - 1, live, m) <==> (Split(l, live, m) != (l > 1 && m == Node(l - 2, 0)))
  {
    GrowUsed(d, l, live, Left(m));
    GrowUsed(d, l, live, Right(m));
  }

  lemma GrowUsed(d: nat, l: nat, live: set<Node>, m: Node)
    requires Proper(d, l, live) && l > 0 && Used(live, Node(l, 0))
    ensures m.b == l - 1 ==> (Used(live, m) <==> m.k == 0)
  {
    if m.b == l - 1 {
      if m.k == 0 {
        UsedUp(live, Node(l, 0), m);
      } else {
        forall u | u in live
          ensures !Overlap(u, m)
        {
          GrowInRoot(l, u);
        }
      }
    }
  }

  lemma GrowFree(d: nat, l: nat, live: set<Node>, m: Node)
    requires Proper(d, l, live) && l > 0 && Used(live, Node(l, 0))
    ensures Free(l - 1, live, m) <==> Free(l, live, m) || m == Node(l, 1)
  {
    GrowUsed(d, l, live, m);
    RootBit(d, l, live);
    GrowInRoot(l, m);
    if m.b >= l {
      if m.b > l {
        GrowUsed(d, l, live, Parent(m));
        InRootParent(l, m);
        InRootParent(l - 1, m);
        if InRoot(l - 1, m) && !InRoot(l, m) {
          OutsideUnused(d, l, live, Parent(m));
        }
      } else {
        GrowUsed(d, l, live, Parent(m));
      }
    }
  }

  /** Beside the root nothing is live. */
  lemma OutsideUnused(d: nat, l: nat, live: set<Node>, m: Node)
    requires Proper(d, l, live) && m.b >= l && !InRoot(l, m)
    ensures !Used(live, m)
  {
    forall u | u in live
      ensures !Overlap(u, m)
    {
      if Overlap(u, m) { OverlapRoot(l, u, m); }
    }
  }

  lemma OverlapRoot(l: nat, u: Node, m: Node)
    requires l <= u.b && l <= m.b && Overlap(u, m)
    ensures InRoot(l, u) <==> InRoot(l, m)
  {
    if u.b <= m.b { UpUp(m.k, m.b - u.b, u.b - l); } else { UpUp(u.k, u.b - m.b, m.b - l); }
  }

  lemma {:induction false} UpUp(k: nat, d: nat, e: nat)
    ensures Up(Up(k, d), e) == Up(k, d + e)
    decreases d
  {
    if d > 0 { UpUp(k / 2, d - 1, e); }
  }

  // ------------------------------------------------------------------ the tiling

  /** Free blocks do not overlap each other. */
  lemma FreeApart(l: nat, live: set<Node>, n: Node, m: Node)
    requires Free(l, live, n) && Free(l, live, m) && n != m
    ensures !Overlap(n, m)
  {
    if Overlap(n, m) {
      if n.b < m.b {
        FreeBelow(l, live, m, n);
      } else if m.b < n.b {
        FreeBelow(l, live, n, m);
      }
    }
  }

  /** Complete coalescing: no two buddies are free. */
  lemma NoFreeBuddies(l: nat, live: set<Node>, n: Node)
    requires Free(l, live, n) && n.b > l
    ensures !Free(l, live, Sibling(n))
  {
    UsedChildren(live, Parent(n));
    assert {n, Sibling(n)} == {Left(Parent(n)), Right(Parent(n))};
  }

  /** The block around `leaf` that is live or free. */
  ghost predicate Covers(l: nat, live: set<Node>, n: Node, leaf: Node) {
    n.b <= leaf.b && Overlap(n, leaf) && (n in live || Free(l, live, n))
  }

  /** Conservation: every smallest block below the root lies in exactly one live or free block. */
  lemma TiledOnce(d: nat, l: nat, live: set<Node>, leaf: Node)
    requires Proper(d, l, live) && InRoot(l, leaf) && leaf.b == d
    ensures exists n :: Covers(l, live, n, leaf)
    ensures forall n, m :: Covers(l, live, n, leaf) && Covers(l, live, m, leaf) ==> n == m
  {
    if Used(live, leaf) {
      var u :| u in live && Overlap(u, leaf);
      assert Covers(l, live, u, leaf);
    } else {
      var n := MaximalUnused(l, live, leaf, leaf);
      assert Covers(l, live, n, leaf);
    }
    forall n, m | Covers(l, live, n, leaf) && Covers(l, live, m, leaf)
      ensures n == m
    {
      CoversMeet(l, n, m, leaf);
      if n !in live && m !in live && n != m { FreeApart(l, live, n, m); }
    }
  }

  lemma CoversMeet(l: nat, n: Node, m: Node, leaf: Node)
    requires n.b <= leaf.b && m.b <= leaf.b && Overlap(n, leaf) && Overlap(m, leaf)
    ensures Overlap(n, m) && Overlap(m, n)
  {
    if n.b <= m.b { UpUp(leaf.k, leaf.b - m.b, m.b - n.b); } else { UpUp(leaf.k, leaf.b - n.b, n.b - m.b); }
  }

  /** Climbing from an unused block to the free block around it. */
  lemma {:induction false} MaximalUnused(l: nat, live: set<Node>, m: Node, leaf: Node) returns (n: Node)
    requires InRoot(l, m) && Unused(l, live, m) && m.b <= leaf.b && Overlap(m, leaf)
    ensures Free(l, live, n) && n.b <= leaf.b && Overlap(n, leaf)
    decreases m.b
  {
    if m.b == l || !Unused(l, live, Parent(m)) {
      n := m;
    } else {
      InRootParent(l, m);
      UpSucc(leaf.k, leaf.b - m.b);
      n := MaximalUnused(l, live, Parent(m), leaf);
    }
  }
}
