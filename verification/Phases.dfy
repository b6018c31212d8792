/** The two phases of smoothsort on sequences: growing the forest over a prefix,
    and taking the maximum off its right end. */
module Phases {
  import opened Comparators
  import opened Leonardo
  import opened Forest

  // ------------------------------------------------------------------ growing

  /** A tree of order `k` with `rem` elements to its right can no longer become a subtree. */
  predicate Never(k: nat, rem: int) { k >= 1 && rem <= Leo(k - 1) }

  /** Roots of trees that can never be merged again are ascending. */
  ghost predicate Settled<T(!new)>(cmp: (T, T) -> int, s: seq<T>, os: seq<nat>, h: int)
    requires Sum(os) == h + 1 <= |s|
  {
    |os| > 1 ==>
      && (Never(os[0], |s| - 1 - h) ==> Le(cmp, s[h - Leo(os[0])], s[h]))
      && Settled(cmp, s, os[1..], h - Leo(os[0]))
  }

  /** Over the prefix that ends at `h`: heaps everywhere except for the newest root. */
  ghost predicate Growing<T(!new)>(cmp: (T, T) -> int, s: seq<T>, os: seq<nat>, h: int)
    requires os != [] && Sum(os) == h + 1 <= |s|
  {
    && ChildHeaps(cmp, s, h, os[0])
    && Heaps(cmp, s, os[1..], h - Leo(os[0]))
    && Settled(cmp, s, os[1..], h - Leo(os[0]))
  }

  lemma {:induction false} SettledFrame<T(!new)>(cmp: (T, T) -> int, s: seq<T>, t: seq<T>, os: seq<nat>, h: int)
    requires Sum(os) == h + 1 <= |s|
    requires SameInside(s, t, 0, h + 1)
    requires Settled(cmp, s, os, h)
    ensures Settled(cmp, t, os, h)
  {
    if |os| > 1 {
      SettledFrame(cmp, s, t, os[1..], h - Leo(os[0]));
    }
  }

  lemma {:induction false} RootsSettled<T(!new)>(cmp: (T, T) -> int, s: seq<T>, os: seq<nat>, h: int)
    requires Sum(os) == h + 1 <= |s|
    requires Roots(cmp, s, os, h)
    ensures Settled(cmp, s, os, h)
  {
    if |os| > 1 {
      RootsSettled(cmp, s, os[1..], h - Leo(os[0]));
    }
  }

  /** If a tree is final and its left neighbour is not of the next order, so is the neighbour. */
  lemma NeverChain(k: nat, j: nat, rem: int)
    requires Never(k, rem) && k + 2 <= j
    ensures Never(j, rem + Leo(k))
  {
    LeoMono(k + 1, j - 1);
  }

  lemma {:induction false} SettledRoots<T(!new)>(cmp: (T, T) -> int, s: seq<T>, os: seq<nat>, h: int)
    requires os != [] && Sum(os) == h + 1 <= |s|
    requires Sparse(os) && Never(os[0], |s| - 1 - h) && Settled(cmp, s, os, h)
    ensures Roots(cmp, s, os, h)
  {
    if |os| > 1 {
      NeverChain(os[0], os[1], |s| - 1 - h);
      SettledRoots(cmp, s, os[1..], h - Leo(os[0]));
    }
  }

  lemma ShiftedSum(k: nat, os: seq<nat>)
    ensures Sum([k] + os) == Leo(k) + Sum(os)
    ensures ([k] + os)[1..] == os
  {
    assert ([k] + os)[1..] == os;
  }

  /** Sifting one of two adjacent trees prepares a node above both. */
  lemma GrowMerge<T(!new)>(cmp: (T, T) -> int, s: seq<T>, os: seq<nat>, h: int)
    requires |os| > 1 && os[1] == os[0] + 1 && Sum(os) == h + 1 < |s|
    requires TotalPreorder(cmp) && Growing(cmp, s, os, h)
    ensures Sum([os[0] + 2] + os[2..]) == h + 2
    ensures Growing(cmp, Sift(cmp, s, h, os[0]), [os[0] + 2] + os[2..], h + 1)
  {
    var k := os[0];
    var t := Sift(cmp, s, h, k);
    SiftHeap(cmp, s, h, k);
    SiftFrame(cmp, s, h, k);
    hide Sift, Sum;
    MergedSum(os);
    MergeKept(cmp, s, t, os, h);
    MergedGrowing(cmp, t, k, os[2..], h);
  }

  /** A change inside the nearest tree leaves the others as they are. */
  lemma MergeKept<T(!new)>(cmp: (T, T) -> int, s: seq<T>, t: seq<T>, os: seq<nat>, h: int)
    requires |os| > 1 && os[1] == os[0] + 1 && Sum(os) == h + 1 < |s|
    requires Growing(cmp, s, os, h) && SameOutside(s, t, h + 1 - Leo(os[0]), h + 1)
    requires Sum(os[2..]) == h + 1 - Leo(os[0]) - Leo(os[1])
    ensures Heap(cmp, t, h - Leo(os[0]), os[1])
    ensures Heaps(cmp, t, os[2..], h - Leo(os[0]) - Leo(os[1])) && Settled(cmp, t, os[2..], h - Leo(os[0]) - Leo(os[1]))
  {
    hide Heap, Heaps, Settled, Growing, Sum, Leo;
    var l := h - Leo(os[0]);
    MergeParts(cmp, s, os, h);
    HeapFrame(cmp, s, t, l, os[1]);
    HeapsFrame(cmp, s, t, os[2..], l - Leo(os[1]));
    SettledFrame(cmp, s, t, os[2..], l - Leo(os[1]));
  }

  lemma MergeParts<T(!new)>(cmp: (T, T) -> int, s: seq<T>, os: seq<nat>, h: int)
    requires |os| > 1 && os[1] == os[0] + 1 && Sum(os) == h + 1 < |s|
    requires Growing(cmp, s, os, h)
    requires Sum(os[2..]) == h + 1 - Leo(os[0]) - Leo(os[1])
    ensures Heap(cmp, s, h - Leo(os[0]), os[1])
    ensures Heaps(cmp, s, os[2..], h - Leo(os[0]) - Leo(os[1]))
    ensures Settled(cmp, s, os[2..], h - Leo(os[0]) - Leo(os[1]))
  {
    assert os[2..] == os[1..][1..];
  }

  lemma MergedGrowing<T(!new)>(cmp: (T, T) -> int, t: seq<T>, k: nat, r: seq<nat>, h: int)
    requires Leo(k) + Leo(k + 1) + Sum(r) == h + 1 < |t|
    requires Heap(cmp, t, h, k) && Heap(cmp, t, h - Leo(k), k + 1)
    requires Heaps(cmp, t, r, h - Leo(k) - Leo(k + 1)) && Settled(cmp, t, r, h - Leo(k) - Leo(k + 1))
    ensures Sum([k + 2] + r) == h + 2 && Growing(cmp, t, [k + 2] + r, h + 1)
  {
    hide Heap, Heaps, Settled;
    ShiftedSum(k + 2, r);
    assert Leo(k + 2) == Leo(k + 1) + Leo(k) + 1;
    assert Left(h + 1, k + 2) == h - Leo(k);
  }

  lemma MergedSum(os: seq<nat>)
    requires |os| > 1 && os[1] == os[0] + 1
    ensures Sum([os[0] + 2] + os[2..]) == Sum(os) + 1
    ensures Sum(os) == Leo(os[0]) + Leo(os[1]) + Sum(os[2..])
  {
    ShiftedSum(os[0] + 2, os[2..]);
    assert os[2..] == os[1..][1..];
  }

  /** A final tree is trinkled; the next element starts a tree of its own. */
  lemma GrowFinal<T(!new)>(cmp: (T, T) -> int, s: seq<T>, os: seq<nat>, h: int, k: nat)
    requires os != [] && Sparse(os) && Sum(os) == h + 1 < |s| && k < 2
    requires TotalPreorder(cmp) && Growing(cmp, s, os, h) && Never(os[0], |s| - 1 - h)
    ensures Sum([k] + os) == h + 2
    ensures Growing(cmp, Trinkle(cmp, s, os, h, false), [k] + os, h + 1)
  {
    var t := Trinkle(cmp, s, os, h, false);
    ShiftedSum(k, os);
    if |os| > 1 {
      NeverChain(os[0], os[1], |s| - 1 - h);
      SettledRoots(cmp, s, os[1..], h - Leo(os[0]));
    }
    TrinkleForest(cmp, s, os, h, false);
    RootsSettled(cmp, t, os, h);
  }

  /** A tree that will be merged later is only sifted. */
  lemma GrowOpen<T(!new)>(cmp: (T, T) -> int, s: seq<T>, os: seq<nat>, h: int, k: nat)
    requires os != [] && Sum(os) == h + 1 < |s| && k < 2
    requires TotalPreorder(cmp) && Growing(cmp, s, os, h) && !Never(os[0], |s| - 1 - h)
    ensures Sum([k] + os) == h + 2
    ensures Growing(cmp, Sift(cmp, s, h, os[0]), [k] + os, h + 1)
  {
    var t := Sift(cmp, s, h, os[0]);
    ShiftedSum(k, os);
    SiftHeap(cmp, s, h, os[0]);
    SiftFrame(cmp, s, h, os[0]);
    HeapsFrame(cmp, s, t, os[1..], h - Leo(os[0]));
    SettledFrame(cmp, s, t, os[1..], h - Leo(os[0]));
  }

  /** With no element left every tree is final, so one more trinkle orders the forest. */
  lemma GrowDone<T(!new)>(cmp: (T, T) -> int, s: seq<T>, os: seq<nat>, h: int)
    requires os != [] && Increasing(os) && Sparse(os[1..]) && Sum(os) == h + 1 == |s|
    requires Growing(cmp, s, os, h)
    ensures AlmostForest(cmp, s, os, h, false)
  {
    if |os| > 1 {
      LeoMono(os[0], os[1] - 1);
      SettledRoots(cmp, s, os[1..], h - Leo(os[0]));
    }
  }

  // ------------------------------------------------------------------ draining

  /** An ascending forest up to `h`; above it every element is in its final place. */
  ghost predicate Draining<T(!new)>(cmp: (T, T) -> int, s: seq<T>, os: seq<nat>, h: int)
    requires os != [] && Sum(os) == h + 1 <= |s|
  {
    && Heaps(cmp, s, os, h)
    && Roots(cmp, s, os, h)
    && Done(cmp, s, h)
  }

  ghost predicate Done<T(!new)>(cmp: (T, T) -> int, s: seq<T>, h: int)
    requires -1 <= h < |s|
  {
    forall i :: h < i < |s| ==> AllLe(cmp, s, 0, i, s[i])
  }

  /** The head of the forest is the maximum of what is left, so it stays where it is. */
  lemma HeadDone<T(!new)>(cmp: (T, T) -> int, s: seq<T>, os: seq<nat>, h: int)
    requires os != [] && Sum(os) == h + 1 <= |s|
    requires TotalPreorder(cmp) && Draining(cmp, s, os, h)
    ensures Done(cmp, s, h - 1)
  {
    assert Le(cmp, s[h], s[h]);
    ForestMax(cmp, s, os, h, s[h]);
  }

  lemma DoneTrinkle<T(!new)>(cmp: (T, T) -> int, s: seq<T>, os: seq<nat>, h: int, trusty: bool, top: int)
    requires os != [] && Sum(os) == h + 1 && h <= top < |s|
    requires Done(cmp, s, top)
    ensures Done(cmp, Trinkle(cmp, s, os, h, trusty), top)
  {
    var t := Trinkle(cmp, s, os, h, trusty);
    TrinkleFrame(cmp, s, os, h, trusty);
    forall i | top < i < |t|
      ensures AllLe(cmp, t, 0, i, t[i])
    {
      assert AllLe(cmp, s, 0, i, s[i]);
      TrinkleAllLe(cmp, s, os, h, trusty, i, s[i]);
    }
  }

  /** Taking off a tree of one element. */
  lemma DrainSingle<T(!new)>(cmp: (T, T) -> int, s: seq<T>, os: seq<nat>, h: int)
    requires |os| > 1 && os[0] < 2 && Sum(os) == h + 1 <= |s|
    requires TotalPreorder(cmp) && Draining(cmp, s, os, h)
    ensures Sum(os[1..]) == h && Draining(cmp, s, os[1..], h - 1)
  {
    HeadDone(cmp, s, os, h);
  }

  /** The forest after the root of the nearest tree is taken off: its left child is a tree. */
  lemma DrainLeft<T(!new)>(cmp: (T, T) -> int, s: seq<T>, os: seq<nat>, h: int)
    requires os != [] && os[0] >= 2 && Sum(os) == h + 1 <= |s|
    requires TotalPreorder(cmp) && Draining(cmp, s, os, h)
    ensures Sum([os[0] - 1] + os[1..]) == Left(h, os[0]) + 1
    ensures AlmostForest(cmp, s, [os[0] - 1] + os[1..], Left(h, os[0]), true)
    ensures Heap(cmp, s, h - 1, os[0] - 2)
    ensures Done(cmp, s, h - 1)
  {
    ShiftedSum(os[0] - 1, os[1..]);
    HeadDone(cmp, s, os, h);
    HeapParts(cmp, s, h, os[0]);
    hide Heap, Leo, Done, TotalPreorder;
  }

  lemma HeapParts<T(!new)>(cmp: (T, T) -> int, s: seq<T>, r: nat, k: nat)
    requires r < |s| && Leo(k) <= r + 1 && Heap(cmp, s, r, k) && k >= 2
    ensures Heap(cmp, s, Left(r, k), k - 1) && ChildHeaps(cmp, s, Left(r, k), k - 1)
    ensures Heap(cmp, s, r - 1, k - 2)
  {
  }

  /** Adding the right child as a tree as well. */
  lemma DrainRight<T(!new)>(cmp: (T, T) -> int, s: seq<T>, os: seq<nat>, l: int, h: int, k: nat)
    requires os != [] && Sum(os) == l + 1 && h == l + Leo(k) + 1 && h < |s|
    requires Heap(cmp, s, h - 1, k) && Done(cmp, s, h - 1)
    requires TotalPreorder(cmp) && AlmostForest(cmp, s, os, l, true)
    ensures Sum([k] + os) == h
    ensures var t := Trinkle(cmp, s, os, l, true);
            && AlmostForest(cmp, t, [k] + os, h - 1, true)
            && Done(cmp, t, h - 1)
  {
    var t := Trinkle(cmp, s, os, l, true);
    ShiftedSum(k, os);
    TrinkleForest(cmp, s, os, l, true);
    TrinkleFrame(cmp, s, os, l, true);
    DoneTrinkle(cmp, s, os, l, true, h - 1);
    HeapFrame(cmp, s, t, h - 1, k);
  }

  lemma DrainAgain<T(!new)>(cmp: (T, T) -> int, s: seq<T>, os: seq<nat>, h: int)
    requires os != [] && Sum(os) == h + 1 <= |s|
    requires TotalPreorder(cmp) && AlmostForest(cmp, s, os, h, true) && Done(cmp, s, h)
    ensures Draining(cmp, Trinkle(cmp, s, os, h, true), os, h)
  {
    TrinkleForest(cmp, s, os, h, true);
    DoneTrinkle(cmp, s, os, h, true, h);
  }

  /** Ascending under the comparator. */
  ghost predicate Sorted<T(!new)>(cmp: (T, T) -> int, s: seq<T>) {
    forall i, j :: 0 <= i < j < |s| ==> Le(cmp, s[i], s[j])
  }

  lemma DrainedSorted<T(!new)>(cmp: (T, T) -> int, s: seq<T>)
    requires s != [] && Done(cmp, s, 0)
    ensures Sorted(cmp, s)
  {
    forall i, j | 0 <= i < j < |s|
      ensures Le(cmp, s[i], s[j])
    {
      assert AllLe(cmp, s, 0, j, s[j]);
    }
  }
}
