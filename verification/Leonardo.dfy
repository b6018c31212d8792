/** Leonardo numbers, Leonardo heaps inside a sequence, and the two sinking
    operations of smoothsort as functions on sequences. */
module Leonardo {
  import opened Comparators

  // ------------------------------------------------------------------ numbers

  function Leo(k: nat): (r: nat)
    ensures r >= 1
  {
    if k < 2 then 1 else Leo(k - 1) + Leo(k - 2) + 1
  }

  lemma {:induction false} LeoMono(j: nat, k: nat)
    requires j <= k
    ensures Leo(j) <= Leo(k)
    decreases k
  {
    if j < k { LeoMono(j, k - 1); }
  }

  // ------------------------------------------------------------------ sequences

  function Swap<T>(s: seq<T>, i: nat, j: nat): (t: seq<T>)
    requires i < |s| && j < |s|
    ensures |t| == |s|
  {
    s[i := s[j]][j := s[i]]
  }

  /** `s` and `t` agree outside the positions `lo` to `hi - 1`. */
  ghost predicate SameOutside<T>(s: seq<T>, t: seq<T>, lo: int, hi: int) {
    && |s| == |t|
    && forall i :: 0 <= i < |s| && (i < lo || hi <= i) ==> s[i] == t[i]
  }

  ghost predicate SameInside<T>(s: seq<T>, t: seq<T>, lo: int, hi: int) {
    && |s| == |t|
    && forall i :: 0 <= i < |s| && lo <= i < hi ==> s[i] == t[i]
  }

  ghost predicate AllLe<T(!new)>(cmp: (T, T) -> int, s: seq<T>, lo: int, hi: int, v: T)
    requires 0 <= lo <= hi <= |s|
  {
    forall i :: lo <= i < hi ==> Le(cmp, s[i], v)
  }

  // ------------------------------------------------------------------ heaps

  /** Position of the left child (order `k - 1`) of a root at `r` of order `k`. */
  function Left(r: nat, k: nat): (l: nat)
    requires k >= 2 && Leo(k) <= r + 1
    ensures l < r && Leo(k - 1) <= l + 1 && l == r - 1 - Leo(k - 2)
    ensures l + 1 - Leo(k - 1) == r + 1 - Leo(k)
  {
    r - 1 - Leo(k - 2)
  }

  /** The subtrees of the root at `r` of order `k` are heaps; the root itself is arbitrary. */
  ghost predicate ChildHeaps<T(!new)>(cmp: (T, T) -> int, s: seq<T>, r: nat, k: nat)
    requires r < |s| && Leo(k) <= r + 1
    decreases k, 0
  {
    k >= 2 ==> Heap(cmp, s, Left(r, k), k - 1) && Heap(cmp, s, r - 1, k - 2)
  }

  ghost predicate RootDominates<T(!new)>(cmp: (T, T) -> int, s: seq<T>, r: nat, k: nat)
    requires r < |s| && Leo(k) <= r + 1
  {
    k >= 2 ==> Le(cmp, s[Left(r, k)], s[r]) && Le(cmp, s[r - 1], s[r])
  }

  /** The positions `r + 1 - Leo(k)` to `r` hold a Leonardo heap of order `k`. */
  ghost predicate Heap<T(!new)>(cmp: (T, T) -> int, s: seq<T>, r: nat, k: nat)
    requires r < |s| && Leo(k) <= r + 1
    decreases k, 1
  {
    RootDominates(cmp, s, r, k) && ChildHeaps(cmp, s, r, k)
  }

  lemma {:induction false} HeapFrame<T(!new)>(cmp: (T, T) -> int, s: seq<T>, t: seq<T>, r: nat, k: nat)
    requires r < |s| && Leo(k) <= r + 1
    requires SameInside(s, t, r + 1 - Leo(k), r + 1)
    requires Heap(cmp, s, r, k)
    ensures Heap(cmp, t, r, k)
    decreases k
  {
    if k >= 2 {
      HeapFrame(cmp, s, t, Left(r, k), k - 1);
      HeapFrame(cmp, s, t, r - 1, k - 2);
    }
  }

  /** The root of a heap is a maximum. */
  lemma {:induction false} HeapMax<T(!new)>(cmp: (T, T) -> int, s: seq<T>, r: nat, k: nat, v: T)
    requires r < |s| && Leo(k) <= r + 1
    requires TotalPreorder(cmp) && Heap(cmp, s, r, k) && Le(cmp, s[r], v)
    ensures AllLe(cmp, s, r + 1 - Leo(k), r + 1, v)
    decreases k
  {
    if k >= 2 {
      HeapMax(cmp, s, Left(r, k), k - 1, v);
      HeapMax(cmp, s, r - 1, k - 2, v);
    }
  }

  // ------------------------------------------------------------------ sift

  /** The child that `sift` moves into the root's place, or none when the root stays. */
  function SiftChild<T>(cmp: (T, T) -> int, s: seq<T>, r: nat, k: nat): (c: nat)
    requires r < |s| && Leo(k) <= r + 1
    ensures c == r || (k >= 2 && (c == Left(r, k) || c == r - 1))
  {
    if k < 2 then r
    else if cmp(s[r], s[Left(r, k)]) >= 0 && cmp(s[r], s[r - 1]) >= 0 then r
    else if cmp(s[Left(r, k)], s[r - 1]) >= 0 then Left(r, k)
    else r - 1
  }

  function ChildOrder(r: nat, k: nat, c: nat): nat
    requires k >= 2 && Leo(k) <= r + 1 && (c == Left(r, k) || c == r - 1)
  {
    if c == Left(r, k) then k - 1 else k - 2
  }

  /** Sinking the root at `r` of order `k` by swaps with the larger child. */
  function Sift<T>(cmp: (T, T) -> int, s: seq<T>, r: nat, k: nat): (t: seq<T>)
    requires r < |s| && Leo(k) <= r + 1
    ensures |t| == |s|
    decreases r
  {
    var c := SiftChild(cmp, s, r, k);
    if c == r then s else Sift(cmp, Swap(s, r, c), c, ChildOrder(r, k, c))
  }

  lemma {:induction false} SiftFrame<T>(cmp: (T, T) -> int, s: seq<T>, r: nat, k: nat)
    requires r < |s| && Leo(k) <= r + 1
    ensures SameOutside(s, Sift(cmp, s, r, k), r + 1 - Leo(k), r + 1)
    ensures multiset(Sift(cmp, s, r, k)) == multiset(s)
    decreases r
  {
    var c := SiftChild(cmp, s, r, k);
    if c != r {
      SiftFrame(cmp, Swap(s, r, c), c, ChildOrder(r, k, c));
    }
  }

  lemma {:induction false} SiftAllLe<T(!new)>(cmp: (T, T) -> int, s: seq<T>, r: nat, k: nat, lo: nat, hi: nat, v: T)
    requires r < |s| && Leo(k) <= r + 1
    requires lo <= r + 1 - Leo(k) && r < hi <= |s|
    requires AllLe(cmp, s, lo, hi, v)
    ensures AllLe(cmp, Sift(cmp, s, r, k), lo, hi, v)
    decreases r
  {
    var c := SiftChild(cmp, s, r, k);
    if c != r {
      SiftAllLe(cmp, Swap(s, r, c), c, ChildOrder(r, k, c), lo, hi, v);
    }
  }

  /** `sift` turns a root over two heaps into a heap whose root is at least as large as
      the old root and the old children. */
  lemma SiftHeap<T(!new)>(cmp: (T, T) -> int, s: seq<T>, r: nat, k: nat)
    requires r < |s| && Leo(k) <= r + 1
    requires TotalPreorder(cmp) && ChildHeaps(cmp, s, r, k)
    ensures Heap(cmp, Sift(cmp, s, r, k), r, k)
    ensures Le(cmp, s[r], Sift(cmp, s, r, k)[r])
    ensures k >= 2 ==> Le(cmp, s[Left(r, k)], Sift(cmp, s, r, k)[r])
    ensures k >= 2 ==> Le(cmp, s[r - 1], Sift(cmp, s, r, k)[r])
    decreases r
  {
    var c := SiftChild(cmp, s, r, k);
    if c == r {
      assert Le(cmp, s[r], s[r]);
    } else {
      SiftStep(cmp, s, r, k, c);
    }
  }

  /** The chosen child is at least as large as the root and both children. */
  lemma ChildLargest<T(!new)>(cmp: (T, T) -> int, s: seq<T>, r: nat, k: nat, c: nat)
    requires r < |s| && Leo(k) <= r + 1 && TotalPreorder(cmp)
    requires c == SiftChild(cmp, s, r, k) && c != r
    ensures Le(cmp, s[r], s[c]) && Le(cmp, s[Left(r, k)], s[c]) && Le(cmp, s[r - 1], s[c])
    ensures Le(cmp, s[c], s[c])
  {
    hide Leo;
    var l := Left(r, k);
    assert Le(cmp, s[l], s[r - 1]) || Le(cmp, s[r - 1], s[l]);
    assert Le(cmp, s[r], s[l]) || Le(cmp, s[r], s[r - 1]);
  }

  lemma SiftStep<T(!new)>(cmp: (T, T) -> int, s: seq<T>, r: nat, k: nat, c: nat)
    requires r < |s| && Leo(k) <= r + 1
    requires TotalPreorder(cmp) && ChildHeaps(cmp, s, r, k)
    requires c == SiftChild(cmp, s, r, k) && c != r
    ensures Heap(cmp, Sift(cmp, s, r, k), r, k)
    ensures Le(cmp, s[r], Sift(cmp, s, r, k)[r])
    ensures k >= 2 ==> Le(cmp, s[Left(r, k)], Sift(cmp, s, r, k)[r])
    ensures k >= 2 ==> Le(cmp, s[r - 1], Sift(cmp, s, r, k)[r])
    decreases r, 0
  {
    hide TotalPreorder, Le, SiftChild, Leo;
    var l, kc := Left(r, k), ChildOrder(r, k, c);
    var u := Swap(s, r, c);
    var t := Sift(cmp, u, c, kc);
    ChildLargest(cmp, s, r, k, c);
    // the chosen subtree
    ChildFrame(cmp, s, u, c, kc);
    SiftHeap(cmp, u, c, kc);
    SiftFrame(cmp, u, c, kc);
    HeapMax(cmp, s, c, kc, s[c]);
    SiftAllLe(cmp, u, c, kc, c + 1 - Leo(kc), c + 1, s[c]);
    assert t[r] == s[c];
    // the other subtree
    if c == l {
      HeapFrame(cmp, s, t, r - 1, k - 2);
    } else {
      HeapFrame(cmp, s, t, l, k - 1);
    }
  }

  lemma ChildFrame<T(!new)>(cmp: (T, T) -> int, s: seq<T>, t: seq<T>, r: nat, k: nat)
    requires r < |s| && Leo(k) <= r + 1
    requires SameInside(s, t, r + 1 - Leo(k), r)
    requires ChildHeaps(cmp, s, r, k)
    ensures ChildHeaps(cmp, t, r, k)
  {
    if k >= 2 {
      HeapFrame(cmp, s, t, Left(r, k), k - 1);
      HeapFrame(cmp, s, t, r - 1, k - 2);
    }
  }
}
