/** The representation of the buddy allocator as values: node indices, addresses, bits,
    free lists and their circles in memory, and what each elementary step does to them. */
module BuddyState {
  import opened Bits
  import opened BuddyTree
  import opened FreeList
  import SlotLists

  const HEADER_SIZE: nat := 8

  /** The fixed part of an allocator: its template parameters and where its memory starts. */
  datatype Geometry = Geometry(minLog: nat, maxLog: nat, buckets: nat, base: nat) {
    predicate Valid() {
      && 4 <= minLog < maxLog
      && buckets + LINK_SIZE * (Depth() + 1) <= base
      && base % 16 == 8
    }

    /** BUCKET_COUNT - 1, the bucket of the smallest blocks. */
    function Depth(): nat
      requires minLog <= maxLog
    {
      maxLog - minLog
    }

    function Size(b: nat): (r: nat)
      requires minLog <= maxLog && b <= Depth()
      ensures r > 0
    {
      Pow2(maxLog - b)
    }

    function Addr(n: Node): nat
      requires minLog <= maxLog && n.b <= Depth()
    {
      base + n.k * Size(n.b)
    }

    function Head(b: nat): nat { buckets + LINK_SIZE * b }
  }

  function Index(n: Node): nat { Pow2(n.b) - 1 + n.k }

  // ------------------------------------------------------------------ indices

  lemma {:induction false} UpBound(k: nat, d: nat)
    requires Up(k, d) == 0
    ensures k < Pow2(d)
  {
    if d > 0 { UpBound(k / 2, d - 1); }
  }

  lemma InRootBound(l: nat, n: Node)
    requires InRoot(l, n)
    ensures n.k < Pow2(n.b - l) <= Pow2(n.b)
  {
    UpBound(n.k, n.b - l);
    Pow2Mono(n.b - l, n.b);
  }

  /** Moving to the parent, the children and the buddy by arithmetic on the index. */
  lemma IndexMoves(n: Node)
    ensures Index(Left(n)) == 2 * Index(n) + 1 && Index(Right(n)) == 2 * Index(n) + 2
    ensures n.b > 0 ==> Index(n) > 0 && (Index(n) - 1) / 2 == Index(Parent(n))
    ensures n.b > 0 ==> Xor(Index(n) - 1, 1) + 1 == Index(Sibling(n))
    ensures n.b == 0 && n.k == 0 <==> Index(n) == 0
  {
    if n.b > 0 {
      assert Pow2(n.b) == 2 * Pow2(n.b - 1);
      XorOne(Index(n) - 1);
    }
  }

  lemma XorOne(x: nat)
    ensures Xor(x, 1) == if x % 2 == 0 then x + 1 else x - 1
  {
    assert x > 0 ==> Xor(x / 2, 0) == x / 2;
  }

  /** Different blocks have different indices. */
  lemma IndexInjective(n: Node, m: Node)
    requires n.k < Pow2(n.b) && m.k < Pow2(m.b) && Index(n) == Index(m)
    ensures n == m
  {
    if n.b < m.b { Pow2Mono(n.b + 1, m.b); }
    if m.b < n.b { Pow2Mono(m.b + 1, n.b); }
  }

  lemma IndexBound(n: Node, d: nat)
    requires n.k < Pow2(n.b) && n.b < d
    ensures Index(n) < Pow2(d) - 1
  {
    Pow2Mono(n.b + 1, d);
  }

  // ------------------------------------------------------------------ addresses

  lemma SizeHalf(g: Geometry, b: nat)
    requires g.minLog <= g.maxLog && b < g.Depth()
    ensures g.Size(b) == 2 * g.Size(b + 1)
  {
  }

  lemma SizeSixteen(g: Geometry, b: nat)
    requires g.Valid() && b <= g.Depth()
    ensures g.Size(b) % 16 == 0 && g.Size(b) >= 16
  {
    Pow2Add(4, g.maxLog - b - 4);
    assert Pow2(4) == 16;
  }

  lemma AddrParent(g: Geometry, n: Node)
    requires g.minLog <= g.maxLog && 0 < n.b <= g.Depth()
    ensures g.Addr(n) == g.Addr(Parent(n)) + (if n.k % 2 == 0 then 0 else g.Size(n.b))
    ensures g.Size(n.b - 1) == 2 * g.Size(n.b)
  {
    hide Pow2;
    SizeHalf(g, n.b - 1);
    Halves(n.k, g.Size(n.b), g.Size(n.b - 1));
  }

  lemma Halves(k: nat, s: nat, t: nat)
    requires t == 2 * s
    ensures k * s == (k / 2) * t + (if k % 2 == 0 then 0 else s)
  {
    var q := k / 2;
    if k % 2 == 0 {
      assert k == q + q;
      assert k * s == q * s + q * s;
    } else {
      assert k == q + q + 1;
      assert k * s == q * s + q * s + s;
    }
    assert q * t == q * s + q * s;
  }

  /** A block lies inside each block around it. */
  lemma {:induction false} AddrInside(g: Geometry, m: Node, d: nat)
    requires g.minLog <= g.maxLog && m.b <= g.Depth() && d <= m.b
    ensures g.Addr(Node(m.b - d, Up(m.k, d))) <= g.Addr(m)
    ensures g.Addr(m) + g.Size(m.b) <= g.Addr(Node(m.b - d, Up(m.k, d))) + g.Size(m.b - d)
    decreases d
  {
    if d > 0 {
      AddrParent(g, m);
      AddrInside(g, Parent(m), d - 1);
    }
  }

  lemma Multiples(j: nat, k: nat, s: nat)
    requires j < k
    ensures j * s + s <= k * s
  {
    MulMono(j + 1, k, s);
    assert (j + 1) * s == j * s + s;
  }

  /** Blocks of which none contains the other do not share a byte. */
  lemma BlocksApart(g: Geometry, n: Node, m: Node)
    requires g.minLog <= g.maxLog && n.b <= g.Depth() && m.b <= g.Depth() && !Overlap(n, m)
    ensures g.Addr(n) + g.Size(n.b) <= g.Addr(m) || g.Addr(m) + g.Size(m.b) <= g.Addr(n)
  {
    if n.b <= m.b {
      AddrInside(g, m, m.b - n.b);
      var k := Up(m.k, m.b - n.b);
      if k < n.k { Multiples(k, n.k, g.Size(n.b)); } else { Multiples(n.k, k, g.Size(n.b)); }
    } else {
      AddrInside(g, n, n.b - m.b);
      var k := Up(n.k, n.b - m.b);
      if k < m.k { Multiples(k, m.k, g.Size(m.b)); } else { Multiples(m.k, k, g.Size(m.b)); }
    }
  }

  lemma AddrApart(g: Geometry, n: Node, m: Node)
    requires g.Valid() && n.b <= g.Depth() && m.b <= g.Depth() && !Overlap(n, m)
    ensures Apart(g.Addr(n), g.Addr(m))
  {
    BlocksApart(g, n, m);
    SizeSixteen(g, n.b);
    SizeSixteen(g, m.b);
  }

  lemma AddrAligned(g: Geometry, n: Node)
    requires g.Valid() && n.b <= g.Depth()
    ensures (g.Addr(n) + HEADER_SIZE) % 16 == 0
    ensures g.base <= g.Addr(n)
  {
    hide Pow2;
    SizeSixteen(g, n.b);
    AlignedSum(g.base, n.k, g.Size(n.b));
  }

  lemma AlignedSum(base: nat, k: nat, s: nat)
    requires base % 16 == 8 && s % 16 == 0
    ensures base + k * s >= base && (base + k * s + 8) % 16 == 0
  {
    assert s == 16 * (s / 16);
    assert k * s == 16 * (k * (s / 16));
  }

  lemma HeadApart(g: Geometry, b: nat, n: Node)
    requires g.Valid() && b <= g.Depth() && n.b <= g.Depth()
    ensures Apart(g.Head(b), g.Addr(n))
  {
  }

  // ------------------------------------------------------------------ bits

  /** Every bit says whether exactly one child is unused. */
  ghost predicate BitsOk(d: nat, l: nat, live: set<Node>, bits: seq<bool>) {
    && |bits| == Pow2(d)
    && forall n: Node {:trigger Split(l, live, n)} :: n.b < d && n.k < Pow2(n.b) ==>
         Index(n) < |bits| && bits[Index(n)] == Split(l, live, n)
  }

  function Flip(bits: seq<bool>, i: nat): (r: seq<bool>)
    requires i < |bits|
    ensures |r| == |bits|
  {
    bits[i := !bits[i]]
  }

  lemma FlipBits(d: nat, l: nat, live: set<Node>, l': nat, live': set<Node>, bits: seq<bool>, p: Node)
    requires BitsOk(d, l, live, bits)
    requires p.b < d && p.k < Pow2(p.b)
    requires forall m: Node {:trigger Split(l', live', m)} :: Split(l', live', m) <==> (Split(l, live, m) != (m == p))
    ensures Index(p) < |bits| && BitsOk(d, l', live', Flip(bits, Index(p)))
  {
    IndexBound(p, d);
    forall n: Node | n.b < d && n.k < Pow2(n.b)
      ensures Index(n) < |bits| && Flip(bits, Index(p))[Index(n)] == Split(l', live', n)
    {
      IndexBound(n, d);
      assert Split(l, live, n) || !Split(l, live, n);
      if Index(n) == Index(p) { IndexInjective(n, p); }
    }
  }

  // ------------------------------------------------------------------ lists

  predicate Listed(l: nat, free: seq<seq<nat>>, n: Node) { l <= n.b < |free| && n.k in free[n.b] }

  /** List `b` holds exactly the maximal unused blocks of bucket `b`, each once. */
  ghost predicate ListsOk(d: nat, l: nat, live: set<Node>, free: seq<seq<nat>>) {
    && |free| == d + 1
    && (forall b :: l <= b <= d ==> SlotLists.NoDup(free[b]))
    && (forall n: Node {:trigger Free(l, live, n)} {:trigger Listed(l, free, n)} ::
           n.b <= d ==> (Listed(l, free, n) <==> Free(l, live, n)))
  }

  function Append(free: seq<seq<nat>>, n: Node): seq<seq<nat>>
    requires n.b < |free|
  {
    free[n.b := free[n.b] + [n.k]]
  }

  function Without(ks: seq<nat>, j: nat): seq<nat>
    requires j < |ks|
  {
    ks[..j] + ks[j + 1..]
  }

  function Drop(free: seq<seq<nat>>, b: nat, j: nat): seq<seq<nat>>
    requires b < |free| && j < |free[b]|
  {
    free[b := Without(free[b], j)]
  }

  lemma AppendLists(d: nat, l: nat, live: set<Node>, live': set<Node>, free: seq<seq<nat>>, n: Node)
    requires ListsOk(d, l, live, free) && l <= n.b <= d && !Free(l, live, n)
    requires forall m: Node :: Free(l, live', m) <==> Free(l, live, m) || m == n
    ensures ListsOk(d, l, live', Append(free, n))
  {
    var f := Append(free, n);
    assert !Listed(l, free, n);
    forall m: Node | m.b <= d
      ensures Listed(l, f, m) <==> Free(l, live', m)
    {
      assert Listed(l, free, m) <==> Free(l, live, m);
    }
  }

  lemma DropLists(d: nat, l: nat, live: set<Node>, live': set<Node>, free: seq<seq<nat>>, n: Node, j: nat)
    requires ListsOk(d, l, live, free) && l <= n.b <= d && j < |free[n.b]| && free[n.b][j] == n.k
    requires forall m: Node :: Free(l, live', m) <==> Free(l, live, m) && m != n
    ensures ListsOk(d, l, live', Drop(free, n.b, j))
  {
    var f := Drop(free, n.b, j);
    WithoutNoDup(free[n.b], j);
    forall m: Node | m.b <= d
      ensures Listed(l, f, m) <==> Free(l, live', m)
    {
      assert Listed(l, free, m) <==> Free(l, live, m);
    }
  }

  lemma WithoutNoDup(ks: seq<nat>, j: nat)
    requires SlotLists.NoDup(ks) && j < |ks|
    ensures SlotLists.NoDup(Without(ks, j))
    ensures forall k :: k in Without(ks, j) <==> k in ks && k != ks[j]
  {
    var r := Without(ks, j);
    forall k
      ensures k in r <==> k in ks && k != ks[j]
    {
      if k in r {
        var i :| 0 <= i < |r| && r[i] == k;
        assert ks[if i < j then i else i + 1] == k;
      }
      if k in ks && k != ks[j] {
        var i :| 0 <= i < |ks| && ks[i] == k;
        assert r[if i < j then i else i - 1] == k;
      }
    }
  }

  // ------------------------------------------------------------------ circles

  /** Addresses of listed blocks. */
  function Addrs(g: Geometry, b: nat, ks: seq<nat>): (r: seq<nat>)
    requires g.minLog <= g.maxLog && b <= g.Depth()
    ensures |r| == |ks|
  {
    seq(|ks|, j requires 0 <= j < |ks| => g.Addr(Node(b, ks[j])))
  }

  function Ring(g: Geometry, b: nat, ks: seq<nat>): seq<nat>
    requires g.minLog <= g.maxLog && b <= g.Depth()
  {
    [g.Head(b)] + Addrs(g, b, ks)
  }

  /** Every list in use is threaded through memory as a circle. */
  ghost predicate RingsOk(g: Geometry, l: nat, free: seq<seq<nat>>, m: Memory)
    requires g.Valid()
  {
    |free| == g.Depth() + 1 && forall b :: l <= b <= g.Depth() ==> Circle(m, Ring(g, b, free[b]))
  }

  /** Listed blocks do not overlap each other. */
  ghost predicate Scattered(l: nat, free: seq<seq<nat>>) {
    forall n, m {:trigger Overlap(n, m)} :: Listed(l, free, n) && Listed(l, free, m) && n != m ==> !Overlap(n, m)
  }

  /** A block that overlaps no listed one. */
  ghost predicate Clear(l: nat, free: seq<seq<nat>>, n: Node) {
    forall m {:trigger Listed(l, free, m)} :: Listed(l, free, m) ==> !Overlap(n, m)
  }

  lemma ListsScattered(d: nat, l: nat, live: set<Node>, free: seq<seq<nat>>)
    requires ListsOk(d, l, live, free)
    ensures Scattered(l, free)
  {
    forall n, m | Listed(l, free, n) && Listed(l, free, m) && n != m
      ensures !Overlap(n, m)
    {
      assert Free(l, live, n) && Free(l, live, m);
      FreeApart(l, live, n, m);
    }
  }

  /** Unlisted cells stay clear of a whole ring. */
  lemma ClearRing(g: Geometry, l: nat, free: seq<seq<nat>>, n: Node, b: nat)
    requires g.Valid() && |free| == g.Depth() + 1 && n.b <= g.Depth() && l <= b <= g.Depth()
    requires Clear(l, free, n)
    ensures ApartFrom(g.Addr(n), Ring(g, b, free[b]))
  {
    var r := Ring(g, b, free[b]);
    forall i | 0 <= i < |r|
      ensures Apart(g.Addr(n), r[i])
    {
      if i == 0 {
        HeadApart(g, b, n);
      } else {
        var m := Node(b, free[b][i - 1]);
        assert Listed(l, free, m);
        AddrApart(g, n, m);
      }
    }
  }

  predicate Inside(g: Geometry, u: Node, a: nat)
    requires g.minLog <= g.maxLog && u.b <= g.Depth()
  {
    g.Addr(u) <= a < g.Addr(u) + g.Size(u.b)
  }

  /** The words of a block are the same in both memories. */
  ghost predicate SameBlock(g: Geometry, m: Memory, m': Memory, u: Node)
    requires g.minLog <= g.maxLog && u.b <= g.Depth()
  {
    forall a :: Inside(g, u, a) ==> At(m, a) == At(m', a)
  }

  /** A word of one block is none of the links of another. */
  lemma OffBlock(g: Geometry, u: Node, n: Node, a: nat)
    requires g.Valid() && u.b <= g.Depth() && n.b <= g.Depth() && !Overlap(u, n) && Inside(g, u, a)
    ensures Off(a, g.Addr(n))
  {
    BlocksApart(g, u, n);
    SizeSixteen(g, n.b);
  }

  lemma OffHead(g: Geometry, u: Node, b: nat, a: nat)
    requires g.Valid() && u.b <= g.Depth() && b <= g.Depth() && Inside(g, u, a)
    ensures Off(a, g.Head(b))
  {
    AddrAligned(g, u);
  }

  /** The words of unlisted blocks are none of the links of a whole ring. */
  lemma ClearWord(g: Geometry, l: nat, free: seq<seq<nat>>, u: Node, b: nat, a: nat)
    requires g.Valid() && |free| == g.Depth() + 1 && u.b <= g.Depth() && l <= b <= g.Depth()
    requires Clear(l, free, u) && Inside(g, u, a)
    ensures OffAll(a, Ring(g, b, free[b]))
  {
    var r := Ring(g, b, free[b]);
    hide Inside;
    forall i | 0 <= i < |r|
      ensures Off(a, r[i])
    {
      if i == 0 {
        OffHead(g, u, b, a);
      } else {
        var m := Node(b, free[b][i - 1]);
        assert Listed(l, free, m);
        OffBlock(g, u, m, a);
      }
    }
  }

  /** Cells of different rings are apart. */
  lemma RingsApart(g: Geometry, l: nat, free: seq<seq<nat>>, b: nat, c: nat, i: nat)
    requires g.Valid() && |free| == g.Depth() + 1 && Scattered(l, free)
    requires l <= b <= g.Depth() && l <= c <= g.Depth() && b != c
    requires i < |Ring(g, c, free[c])|
    ensures ApartFrom(Ring(g, c, free[c])[i], Ring(g, b, free[b]))
  {
    var r, x := Ring(g, b, free[b]), Ring(g, c, free[c])[i];
    forall j | 0 <= j < |r|
      ensures Apart(x, r[j])
    {
      if i > 0 && j > 0 {
        var n, m := Node(c, free[c][i - 1]), Node(b, free[b][j - 1]);
        assert Listed(l, free, n) && Listed(l, free, m);
        AddrApart(g, n, m);
      } else if i > 0 {
        HeadApart(g, b, Node(c, free[c][i - 1]));
      } else if j > 0 {
        HeadApart(g, c, Node(b, free[b][j - 1]));
      }
    }
  }

  /** `push` keeps all circles. */
  lemma PushRings(g: Geometry, l: nat, free: seq<seq<nat>>, m: Memory, n: Node)
    requires g.Valid() && RingsOk(g, l, free, m) && Scattered(l, free)
    requires l <= n.b <= g.Depth() && Clear(l, free, n)
    ensures RingsOk(g, l, Append(free, n), Pushed(m, g.Head(n.b), g.Addr(n)))
  {
    var f, m', r := Append(free, n), Pushed(m, g.Head(n.b), g.Addr(n)), Ring(g, n.b, free[n.b]);
    forall b | l <= b <= g.Depth()
      ensures Circle(m', Ring(g, b, f[b]))
    {
      hide Pushed, Circle, Scattered, Clear;
      ClearRing(g, l, free, n, n.b);
      ClearRing(g, l, free, n, b);
      if b == n.b {
        PushedCircle(m, r, g.Addr(n));
        assert Ring(g, b, f[b]) == r + [g.Addr(n)];
      } else {
        var q := Ring(g, b, free[b]);
        forall i | 0 <= i < |q|
          ensures SameCell(m, m', q[i])
        {
          RingsApart(g, l, free, n.b, b, i);
          assert Apart(q[i], g.Addr(n)) <==> Apart(g.Addr(n), q[i]);
          PushedFrame(m, r, g.Addr(n), q[i]);
        }
        CircleFrame(m, m', q);
      }
    }
  }

  /** `push` does not touch a block that is clear of all lists and of the new block. */
  lemma PushBlock(g: Geometry, l: nat, free: seq<seq<nat>>, m: Memory, n: Node, u: Node)
    requires g.Valid() && RingsOk(g, l, free, m)
    requires l <= n.b <= g.Depth() && u.b <= g.Depth() && Clear(l, free, n) && Clear(l, free, u) && !Overlap(u, n)
    ensures SameBlock(g, m, Pushed(m, g.Head(n.b), g.Addr(n)), u)
  {
    hide Clear, Circle, Pushed;
    ClearRing(g, l, free, n, n.b);
    forall a | Inside(g, u, a)
      ensures At(m, a) == At(Pushed(m, g.Head(n.b), g.Addr(n)), a)
    {
      ClearWord(g, l, free, u, n.b, a);
      OffBlock(g, u, n, a);
      PushedKeeps(m, Ring(g, n.b, free[n.b]), g.Addr(n), a);
    }
  }

  lemma RingWithout(g: Geometry, b: nat, ks: seq<nat>, j: nat)
    requires g.minLog <= g.maxLog && b <= g.Depth() && j < |ks|
    ensures |Ring(g, b, ks)| == |ks| + 1 && Ring(g, b, ks)[j + 1] == g.Addr(Node(b, ks[j]))
    ensures Ring(g, b, Without(ks, j)) == Ring(g, b, ks)[..j + 1] + Ring(g, b, ks)[j + 2..]
  {
  }

  /** `remove` keeps all circles. */
  lemma RemoveRings(g: Geometry, l: nat, free: seq<seq<nat>>, m: Memory, n: Node, j: nat)
    requires g.Valid() && RingsOk(g, l, free, m) && Scattered(l, free)
    requires l <= n.b <= g.Depth() && j < |free[n.b]| && free[n.b][j] == n.k
    ensures RingsOk(g, l, Drop(free, n.b, j), Removed(m, g.Addr(n)))
  {
    hide Removed, Circle, Scattered, Ring;
    var f, m', r := Drop(free, n.b, j), Removed(m, g.Addr(n)), Ring(g, n.b, free[n.b]);
    RingWithout(g, n.b, free[n.b], j);
    forall b | l <= b <= g.Depth()
      ensures Circle(m', Ring(g, b, f[b]))
    {
      if b == n.b {
        RemovedCircle(m, r, j + 1);
      } else {
        var q := Ring(g, b, free[b]);
        forall i | 0 <= i < |q|
          ensures SameCell(m, m', q[i])
        {
          RingsApart(g, l, free, n.b, b, i);
          RemovedFrame(m, r, j + 1, q[i]);
        }
        CircleFrame(m, m', q);
      }
    }
  }

  lemma RemoveBlock(g: Geometry, l: nat, free: seq<seq<nat>>, m: Memory, n: Node, j: nat, u: Node)
    requires g.Valid() && RingsOk(g, l, free, m)
    requires l <= n.b <= g.Depth() && j < |free[n.b]| && free[n.b][j] == n.k
    requires u.b <= g.Depth() && Clear(l, free, u)
    ensures SameBlock(g, m, Removed(m, g.Addr(n)), u)
  {
    hide Clear, Circle, Removed;
    var r := Ring(g, n.b, free[n.b]);
    assert r[j + 1] == g.Addr(n);
    forall a | Inside(g, u, a)
      ensures At(m, a) == At(Removed(m, g.Addr(n)), a)
    {
      ClearWord(g, l, free, u, n.b, a);
      RemovedKeeps(m, r, j + 1, a);
    }
  }

  /** `clear` starts an empty list one bucket below the root. */
  lemma ClearRings(g: Geometry, l: nat, free: seq<seq<nat>>, m: Memory)
    requires g.Valid() && RingsOk(g, l, free, m) && 0 < l <= g.Depth()
    ensures RingsOk(g, l - 1, free[l - 1 := []], Cleared(m, g.Head(l - 1)))
  {
    var f, m' := free[l - 1 := []], Cleared(m, g.Head(l - 1));
    ClearedCircle(m, g.Head(l - 1));
    forall b | l - 1 <= b <= g.Depth()
      ensures Circle(m', Ring(g, b, f[b]))
    {
      hide Cleared, Circle;
      if b == l - 1 {
        assert Ring(g, b, []) == [g.Head(b)];
      } else {
        var q := Ring(g, b, free[b]);
        forall i | 0 <= i < |q|
          ensures SameCell(m, m', q[i])
        {
          if i > 0 { HeadApart(g, l - 1, Node(b, free[b][i - 1])); }
        }
        CircleFrame(m, m', q);
      }
    }
  }
}
