/** A forest of Leonardo heaps: its root list, its two-word code, and the insertion
    of one root into the ascending chain of roots. */
module Forest {
  import opened Bits
  import opened Comparators
  import opened Leonardo

  // ------------------------------------------------------------------ shape

  /** Elements covered by trees of the given orders; the nearest tree comes first. */
  function Sum(os: seq<nat>): (n: nat)
    ensures os != [] ==> n > 0
  {
    if os == [] then 0 else Leo(os[0]) + Sum(os[1..])
  }

  /** Orders grow with the distance from the head. */
  predicate Increasing(os: seq<nat>) {
    |os| > 1 ==> os[0] < os[1] && Increasing(os[1..])
  }

  /** No two trees of adjacent orders. */
  predicate Sparse(os: seq<nat>) {
    |os| > 1 ==> os[0] + 2 <= os[1] && Sparse(os[1..])
  }

  /** The shapes smoothsort moves through: only the nearest two trees may have adjacent
      orders, and a tree of order 0 always stands on one of order 1. */
  predicate Shape(os: seq<nat>) {
    && os != []
    && Increasing(os)
    && Sparse(os[1..])
    && (os[0] == 0 ==> |os| > 1 && os[1] == 1)
  }

  lemma {:induction false} SparseIncreasing(os: seq<nat>)
    requires Sparse(os)
    ensures Increasing(os)
  {
    if |os| > 1 { SparseIncreasing(os[1..]); }
  }

  function Last(os: seq<nat>): nat
    requires os != []
  {
    os[|os| - 1]
  }

  lemma {:induction false} LastLargest(os: seq<nat>)
    requires os != [] && Increasing(os)
    ensures os[0] <= Last(os) && Leo(Last(os)) <= Sum(os)
    ensures |os| > 1 ==> os[0] < Last(os) && Leo(Last(os)) < Sum(os)
  {
    if |os| > 1 {
      LastLargest(os[1..]);
      assert Last(os[1..]) == Last(os);
    } else {
      assert Sum(os[1..]) == 0;
    }
  }

  // ------------------------------------------------------------------ the code p

  /** The bit vector for a root list: bit i is set when a tree of order `os[0] + i` exists. */
  function Code(os: seq<nat>): nat
    requires os != [] && Increasing(os)
  {
    if |os| == 1 then 1 else 1 + Code(os[1..]) * Pow2(os[1] - os[0])
  }

  lemma {:induction false} CodeOdd(os: seq<nat>)
    requires os != [] && Increasing(os)
    ensures Code(os) % 2 == 1
    ensures Code(os) == 1 <==> |os| == 1
    ensures Code(os) % 4 == 3 <==> |os| > 1 && os[1] == os[0] + 1
  {
    if |os| > 1 {
      CodeOdd(os[1..]);
      OddScaled(Code(os[1..]), os[1] - os[0]);
    }
  }

  lemma OddScaled(c: nat, g: nat)
    requires c % 2 == 1 && g > 0
    ensures c * Pow2(g) > 0 && (1 + c * Pow2(g)) % 2 == 1
    ensures (1 + c * Pow2(g)) % 4 == 3 <==> g == 1
  {
    HalfScale(c, g);
    if g > 1 {
      HalfScale(c, g - 1);
    }
    hide Pow2;
  }

  lemma {:induction false} CodeBound(os: seq<nat>)
    requires os != [] && Increasing(os)
    ensures os[0] <= Last(os) && Code(os) < Pow2(Last(os) - os[0] + 1)
  {
    LastLargest(os);
    if |os| > 1 {
      CodeBound(os[1..]);
      var g, c, l := os[1] - os[0], Code(os[1..]), Last(os) - os[1] + 1;
      Pow2Add(l, g);
      BoundStep(c, Pow2(l), Pow2(g));
    }
  }

  lemma BoundStep(c: nat, l: nat, p: nat)
    requires c < l && p >= 2
    ensures 1 + c * p < l * p
  {
    MulMono(c + 1, l, p);
    assert (c + 1) * p == c * p + p;
  }

  /** Moving to the next tree: the gap is the number of zeros above bit 0. */
  lemma CodeNext(os: seq<nat>)
    requires |os| > 1 && Increasing(os)
    ensures Ntz(Code(os) - 1) == os[1] - os[0]
    ensures Code(os) / Pow2(os[1] - os[0]) == Code(os[1..])
  {
    CodeOdd(os[1..]);
    NtzShift(Code(os[1..]), os[1] - os[0]);
    var d := Pow2(os[1] - os[0]);
    assert d >= 2;
    MulMod(Code(os[1..]), d, 1);
  }

  lemma MergeShape(os: seq<nat>)
    requires |os| > 1 && Shape(os) && os[1] == os[0] + 1
    ensures Shape([os[0] + 2] + os[2..])
    ensures ([os[0] + 2] + os[2..])[1..] == os[2..] == os[1..][1..]
    ensures |os| > 2 ==> os[0] + 3 <= os[2] && Increasing(os[2..])
  {
    assert ([os[0] + 2] + os[2..])[1..] == os[2..] == os[1..][1..];
    if |os| > 2 {
      assert os[1..][1] == os[2];
      SparseIncreasing(os[1..]);
    }
  }

  /** The code of a list whose nearest two orders are adjacent. */
  lemma CodeAdjacent(os: seq<nat>)
    requires |os| > 1 && Increasing(os) && os[1] == os[0] + 1
    requires |os| > 2 ==> os[1] < os[2] && Increasing(os[2..])
    ensures |os| == 2 ==> Code(os) == 3
    ensures |os| > 2 ==> Code(os) == 3 + 4 * (Code(os[2..]) * Pow2(os[2] - os[1] - 1))
  {
    var r := os[1..];
    assert Code(os) == 1 + Code(r) * 2 by { assert Pow2(1) == 2; }
    if |os| > 2 {
      assert r[1..] == os[2..];
      HalfScale(Code(os[2..]), os[2] - os[1]);
    }
  }

  /** Two adjacent nearest trees become one of order two higher. */
  lemma CodeMerge(os: seq<nat>)
    requires |os| > 1 && Shape(os) && os[1] == os[0] + 1
    ensures Shape([os[0] + 2] + os[2..])
    ensures (Code(os) / 4) % 2 == 0
    ensures Code(os) / 4 + 1 == Code([os[0] + 2] + os[2..])
  {
    MergeShape(os);
    CodeAdjacent(os);
    CodeUnfold([os[0] + 2] + os[2..], os[2..]);
    hide Code, Pow2, Increasing, Sparse;
    if |os| > 2 {
      var c, g := Code(os[2..]), os[2] - os[1] - 1;
      assert Pow2(g) == Pow2(os[2..][0] - (os[0] + 2));
      HalfScale(c, g);
      Quarter(c * Pow2(g), c * Pow2(g - 1));
    }
  }

  lemma Quarter(x: nat, y: nat)
    ensures (3 + 4 * x) / 4 == x && (x == 2 * y ==> x % 2 == 0)
  {
  }

  lemma CodeUnfold(m: seq<nat>, r: seq<nat>)
    requires m != [] && m[1..] == r && Increasing(m)
    ensures r == [] ==> Code(m) == 1
    ensures r != [] ==> m[0] < r[0] && Increasing(r) && Code(m) == 1 + Code(r) * Pow2(r[0] - m[0])
  {
  }

  /** A new nearest tree of order `k` below the present ones. */
  lemma CodePush(os: seq<nat>, k: nat)
    requires os != [] && Increasing(os) && k < os[0]
    ensures Increasing([k] + os)
    ensures Code([k] + os) == Code(os) * Pow2(os[0] - k) + 1
  {
    assert ([k] + os)[1..] == os;
  }

  /** The order of the tree that the next element starts. */
  function NewOrder(pshift: nat): nat { if pshift == 1 then 0 else 1 }

  lemma PushShape(os: seq<nat>)
    requires Shape(os) && (|os| > 1 ==> os[1] != os[0] + 1)
    ensures os[0] >= 1 && Sparse(os) && NewOrder(os[0]) < os[0]
    ensures Shape([NewOrder(os[0])] + os)
  {
    assert ([NewOrder(os[0])] + os)[1..] == os;
  }

  predicate Adjacent(os: seq<nat>) { |os| > 1 && os[1] == os[0] + 1 }

  /** The root list after one more element: merge two adjacent trees or start a new one. */
  function NextOrders(os: seq<nat>): seq<nat>
    requires os != []
  {
    if Adjacent(os) then [os[0] + 2] + os[2..] else [NewOrder(os[0])] + os
  }

  /** The root list over the first `m` elements. */
  function Orders(m: nat): (os: seq<nat>)
    requires m >= 1
    ensures os != []
  {
    if m == 1 then [1] else NextOrders(Orders(m - 1))
  }

  // ------------------------------------------------------------------ heaps and roots

  ghost predicate Heaps<T(!new)>(cmp: (T, T) -> int, s: seq<T>, os: seq<nat>, h: int)
    requires Sum(os) == h + 1 <= |s|
  {
    os != [] ==> Heap(cmp, s, h, os[0]) && Heaps(cmp, s, os[1..], h - Leo(os[0]))
  }

  /** Every root is at least as large as the one to its left. */
  ghost predicate Roots<T(!new)>(cmp: (T, T) -> int, s: seq<T>, os: seq<nat>, h: int)
    requires Sum(os) == h + 1 <= |s|
  {
    |os| > 1 ==> Le(cmp, s[h - Leo(os[0])], s[h]) && Roots(cmp, s, os[1..], h - Leo(os[0]))
  }

  lemma {:induction false} HeapsFrame<T(!new)>(cmp: (T, T) -> int, s: seq<T>, t: seq<T>, os: seq<nat>, h: int)
    requires Sum(os) == h + 1 <= |s|
    requires SameInside(s, t, 0, h + 1)
    requires Heaps(cmp, s, os, h)
    ensures Heaps(cmp, t, os, h)
  {
    if os != [] {
      HeapFrame(cmp, s, t, h, os[0]);
      HeapsFrame(cmp, s, t, os[1..], h - Leo(os[0]));
    }
  }

  lemma {:induction false} RootsFrame<T(!new)>(cmp: (T, T) -> int, s: seq<T>, t: seq<T>, os: seq<nat>, h: int)
    requires Sum(os) == h + 1 <= |s|
    requires SameInside(s, t, 0, h + 1)
    requires Roots(cmp, s, os, h)
    ensures Roots(cmp, t, os, h)
  {
    if |os| > 1 {
      RootsFrame(cmp, s, t, os[1..], h - Leo(os[0]));
    }
  }

  /** The head of an ascending forest of heaps is its maximum. */
  lemma {:induction false} ForestMax<T(!new)>(cmp: (T, T) -> int, s: seq<T>, os: seq<nat>, h: int, v: T)
    requires os != [] && Sum(os) == h + 1 <= |s|
    requires TotalPreorder(cmp) && Heaps(cmp, s, os, h) && Roots(cmp, s, os, h) && Le(cmp, s[h], v)
    ensures AllLe(cmp, s, 0, h + 1, v)
  {
    HeapMax(cmp, s, h, os[0], v);
    if |os| > 1 {
      ForestMax(cmp, s, os[1..], h - Leo(os[0]), v);
    } else {
      assert Sum(os[1..]) == 0;
    }
  }

  // ------------------------------------------------------------------ trinkle

  /** Where `trinkle` leaves the chain of roots: at the last tree, at a root that is not
      larger, or, when the tree at hand need not be a heap, below a larger child. */
  ghost predicate TrinkleStops<T>(cmp: (T, T) -> int, s: seq<T>, os: seq<nat>, h: int, trusty: bool)
    requires os != [] && Sum(os) == h + 1 <= |s|
  {
    || |os| == 1
    || (var p := h - Leo(os[0]);
        || cmp(s[p], s[h]) <= 0
        || (!trusty && os[0] > 1 && (cmp(s[h - 1], s[p]) >= 0 || cmp(s[Left(h, os[0])], s[p]) >= 0)))
  }

  /** Carrying the value at `h` left along larger roots, then sifting it down. */
  ghost function Trinkle<T>(cmp: (T, T) -> int, s: seq<T>, os: seq<nat>, h: int, trusty: bool): (t: seq<T>)
    requires os != [] && Sum(os) == h + 1 <= |s|
    ensures |t| == |s|
    decreases |os|
  {
    if TrinkleStops(cmp, s, os, h, trusty) then
      (if trusty then s else Sift(cmp, s, h, os[0]))
    else
      Trinkle(cmp, Swap(s, h, h - Leo(os[0])), os[1..], h - Leo(os[0]), false)
  }

  lemma {:induction false} TrinkleFrame<T>(cmp: (T, T) -> int, s: seq<T>, os: seq<nat>, h: int, trusty: bool)
    requires os != [] && Sum(os) == h + 1 <= |s|
    ensures SameOutside(s, Trinkle(cmp, s, os, h, trusty), 0, h + 1)
    ensures multiset(Trinkle(cmp, s, os, h, trusty)) == multiset(s)
    decreases |os|
  {
    if TrinkleStops(cmp, s, os, h, trusty) {
      SiftFrame(cmp, s, h, os[0]);
    } else {
      var p := h - Leo(os[0]);
      TrinkleFrame(cmp, Swap(s, h, p), os[1..], p, false);
    }
  }

  lemma {:induction false} TrinkleAllLe<T(!new)>(cmp: (T, T) -> int, s: seq<T>, os: seq<nat>, h: int, trusty: bool,
                                                 hi: nat, v: T)
    requires os != [] && Sum(os) == h + 1 <= hi <= |s|
    requires AllLe(cmp, s, 0, hi, v)
    ensures AllLe(cmp, Trinkle(cmp, s, os, h, trusty), 0, hi, v)
    decreases |os|
  {
    if TrinkleStops(cmp, s, os, h, trusty) {
      SiftAllLe(cmp, s, h, os[0], 0, hi, v);
    } else {
      var p := h - Leo(os[0]);
      TrinkleAllLe(cmp, Swap(s, h, p), os[1..], p, false, hi, v);
    }
  }

  /** What `trinkle` asks of the forest: everything but the nearest root is in order. */
  ghost predicate AlmostForest<T(!new)>(cmp: (T, T) -> int, s: seq<T>, os: seq<nat>, h: int, trusty: bool)
    requires os != [] && Sum(os) == h + 1 <= |s|
  {
    && ChildHeaps(cmp, s, h, os[0])
    && (trusty ==> Heap(cmp, s, h, os[0]))
    && Heaps(cmp, s, os[1..], h - Leo(os[0]))
    && Roots(cmp, s, os[1..], h - Leo(os[0]))
  }

  /** `trinkle` makes an ascending forest of heaps out of an almost ascending one. */
  lemma {:induction false} TrinkleForest<T(!new)>(cmp: (T, T) -> int, s: seq<T>, os: seq<nat>, h: int, trusty: bool)
    requires os != [] && Sum(os) == h + 1 <= |s|
    requires TotalPreorder(cmp) && AlmostForest(cmp, s, os, h, trusty)
    ensures Heaps(cmp, Trinkle(cmp, s, os, h, trusty), os, h)
    ensures Roots(cmp, Trinkle(cmp, s, os, h, trusty), os, h)
    decreases |os|
  {
    if TrinkleStops(cmp, s, os, h, trusty) {
      TrinkleStopped(cmp, s, os, h, trusty);
    } else {
      var p := h - Leo(os[0]);
      var u := Swap(s, h, p);
      TrinkleSwapped(cmp, s, os, h, trusty);
      TrinkleForest(cmp, u, os[1..], p, false);
      TrinkleFrame(cmp, u, os[1..], p, false);
      TrinkleAllLe(cmp, u, os[1..], p, false, p + 1, s[p]);
      HeapFrame(cmp, u, Trinkle(cmp, u, os[1..], p, false), h, os[0]);
    }
  }

  lemma TrinkleStopped<T(!new)>(cmp: (T, T) -> int, s: seq<T>, os: seq<nat>, h: int, trusty: bool)
    requires os != [] && Sum(os) == h + 1 <= |s|
    requires TotalPreorder(cmp) && AlmostForest(cmp, s, os, h, trusty)
    requires TrinkleStops(cmp, s, os, h, trusty)
    ensures Heaps(cmp, Trinkle(cmp, s, os, h, trusty), os, h)
    ensures Roots(cmp, Trinkle(cmp, s, os, h, trusty), os, h)
  {
    var t := Trinkle(cmp, s, os, h, trusty);
    var p := h - Leo(os[0]);
    if !trusty {
      SiftHeap(cmp, s, h, os[0]);
      SiftFrame(cmp, s, h, os[0]);
    }
    HeapsFrame(cmp, s, t, os[1..], p);
    RootsFrame(cmp, s, t, os[1..], p);
    if |os| > 1 {
      if cmp(s[p], s[h]) <= 0 {
        assert Le(cmp, s[p], s[h]);
      } else {
        var l := Left(h, os[0]);
        assert Le(cmp, s[p], s[h - 1]) || Le(cmp, s[p], s[l]);
      }
    }
  }

  lemma TrinkleSwapped<T(!new)>(cmp: (T, T) -> int, s: seq<T>, os: seq<nat>, h: int, trusty: bool)
    requires os != [] && Sum(os) == h + 1 <= |s|
    requires TotalPreorder(cmp) && AlmostForest(cmp, s, os, h, trusty)
    requires !TrinkleStops(cmp, s, os, h, trusty)
    ensures Heap(cmp, Swap(s, h, h - Leo(os[0])), h, os[0])
    ensures AlmostForest(cmp, Swap(s, h, h - Leo(os[0])), os[1..], h - Leo(os[0]), false)
    ensures AllLe(cmp, Swap(s, h, h - Leo(os[0])), 0, h - Leo(os[0]) + 1, s[h - Leo(os[0])])
  {
    var p := h - Leo(os[0]);
    assert Le(cmp, s[h], s[p]) && Le(cmp, s[p], s[p]);
    SwappedHead(cmp, s, os, h, trusty);
    SwappedRest(cmp, s, os[1..], p, h);
    ForestMax(cmp, s, os[1..], p, s[p]);
  }

  /** The tree at the old place of the carried value is a heap again. */
  lemma SwappedHead<T(!new)>(cmp: (T, T) -> int, s: seq<T>, os: seq<nat>, h: int, trusty: bool)
    requires |os| > 1 && Sum(os) == h + 1 <= |s|
    requires TotalPreorder(cmp) && ChildHeaps(cmp, s, h, os[0]) && (trusty ==> Heap(cmp, s, h, os[0]))
    requires !TrinkleStops(cmp, s, os, h, trusty)
    ensures Heap(cmp, Swap(s, h, h - Leo(os[0])), h, os[0])
  {
    var p := h - Leo(os[0]);
    var u := Swap(s, h, p);
    ChildFrame(cmp, s, u, h, os[0]);
    if os[0] > 1 {
      var l := Left(h, os[0]);
      assert Le(cmp, s[h], s[p]);
      assert Le(cmp, s[l], s[p]) && Le(cmp, s[h - 1], s[p]);
    }
  }

  /** The trees to the left are untouched but for the root that receives the carried value. */
  lemma SwappedRest<T(!new)>(cmp: (T, T) -> int, s: seq<T>, os: seq<nat>, p: int, h: int)
    requires os != [] && Sum(os) == p + 1 && p < h < |s|
    requires Heaps(cmp, s, os, p) && Roots(cmp, s, os, p)
    ensures AlmostForest(cmp, Swap(s, h, p), os, p, false)
  {
    var u := Swap(s, h, p);
    var q := p - Leo(os[0]);
    ChildFrame(cmp, s, u, p, os[0]);
    HeapsFrame(cmp, s, u, os[1..], q);
    RootsFrame(cmp, s, u, os[1..], q);
  }
}
