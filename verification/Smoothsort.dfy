/** `qsort` as smoothsort: sifting, trinkling and the two phases of the sort, in place. */
module Smoothsort {
  import opened Bits
  import opened Comparators
  import opened Leonardo
  import opened Forest
  import opened Phases

  // ------------------------------------------------------------------ limits

  const MAX_ORDER: nat := 65
  const MAX_LENGTH: nat := 55_555_780_070_575  // Leo(MAX_ORDER)
  const LP_SIZE: nat := 96   // size_t lp[12 * sizeof(size_t)]
  const AR_SIZE: nat := 113  // unsigned char *ar[14 * sizeof(size_t) + 1]

  /** Root lists on which no shift of the code reaches a full word. */
  predicate Fits(os: seq<nat>) {
    && Shape(os)
    && Last(os) <= MAX_ORDER
    && (|os| > 1 ==> Last(os) < MAX_ORDER)
  }

  lemma {:induction false} LeoStrict(j: nat, k: nat)
    requires 1 <= j < k
    ensures Leo(j) < Leo(k)
    decreases k
  {
    if j < k - 1 { LeoStrict(j, k - 1); }
  }

  lemma LeoSmall()
    ensures Leo(0) == 1 && Leo(1) == 1
  {
  }

  lemma LeoNext(k: nat)
    requires k >= 2
    ensures Leo(k) == Leo(k - 1) + Leo(k - 2) + 1
  {
  }

  lemma LeoFive(k: nat, x: nat, y: nat)
    requires Leo(k) == x && Leo(k + 1) == y
    ensures Leo(k + 5) == 3 * x + 5 * y + 7
    ensures Leo(k + 6) == 5 * x + 8 * y + 12
  {
    hide Leo;
    LeoNext(k + 2);
    LeoNext(k + 3);
    LeoNext(k + 4);
    LeoNext(k + 5);
    LeoNext(k + 6);
  }

  lemma MaxLength()
    ensures Leo(MAX_ORDER) == MAX_LENGTH
  {
    hide Leo;
    LeoSmall();
    LeoFive(0, 1, 1);
    LeoFive(5, 15, 25);
    LeoFive(10, 177, 287);
    LeoFive(15, 1973, 3193);
    LeoFive(20, 21891, 35421);
    LeoFive(25, 242785, 392835);
    LeoFive(30, 2692537, 4356617);
    LeoFive(35, 29860703, 48315633);
    LeoFive(40, 331160281, 535828591);
    LeoFive(45, 3672623805, 5942430145);
    LeoFive(50, 40730022147, 65902560197);
    LeoFive(55, 451702867433, 730870592323);
    LeoFive(60, 5009461563921, 8105479075761);
  }

  lemma FitsFromSum(os: seq<nat>, m: nat)
    requires Shape(os) && Sum(os) <= m <= MAX_LENGTH
    ensures Fits(os)
    ensures Sum(os) < m ==> Last(os) < MAX_ORDER
  {
    hide Leo, Sum;
    MaxLength();
    LastLargest(os);
    OrderBelow(Last(os), MAX_ORDER);
  }

  lemma OrderBelow(j: nat, k: nat)
    requires k >= 1
    ensures Leo(j) <= Leo(k) ==> j <= k
    ensures Leo(j) < Leo(k) ==> j < k
  {
    if k < j { LeoStrict(k, j); }
  }

  /** The table of Leonardo numbers as far as sorting `n` elements can look. */
  predicate Table(lp: seq<nat>, n: nat) {
    && |lp| == LP_SIZE
    && forall j {:trigger lp[j]} :: 0 <= j <= MAX_ORDER && (j < 2 || Leo(j - 1) < n) ==> lp[j] == Leo(j)
  }

  lemma TableAt(lp: seq<nat>, n: nat, k: nat, j: nat)
    requires Table(lp, n) && Leo(k) <= n && j <= k <= MAX_ORDER
    ensures lp[j] == Leo(j)
  {
    if j >= 2 {
      LeoMono(j, k);
      assert Leo(j) > Leo(j - 1);
    }
  }

  // ------------------------------------------------------------------ cycle

  /** The positions move strictly left. */
  ghost predicate Descending(ar: seq<nat>) {
    forall i, j :: 0 <= i < j < |ar| ==> ar[i] > ar[j]
  }

  ghost predicate InRange(ar: seq<nat>, n: nat) {
    forall i :: 0 <= i < |ar| ==> ar[i] < n
  }

  /** Exchanging along a path, first with second, then second with third, and so on. */
  ghost function Rotate<T>(s: seq<T>, ar: seq<nat>): (t: seq<T>)
    requires InRange(ar, |s|)
    ensures |t| == |s|
  {
    if |ar| < 2 then s
    else Swap(Rotate(s, ar[..|ar| - 1]), ar[|ar| - 2], ar[|ar| - 1])
  }

  /** What a rotation along the path leaves at each position. */
  ghost predicate Rotated<T>(s: seq<T>, t: seq<T>, ar: seq<nat>)
    requires ar != [] && InRange(ar, |s|)
  {
    && |t| == |s|
    && (forall j {:trigger ar[j]} :: 0 <= j < |ar| - 1 ==> t[ar[j]] == s[ar[j + 1]])
    && t[ar[|ar| - 1]] == s[ar[0]]
    && (forall i :: 0 <= i < |s| && i !in ar ==> t[i] == s[i])
  }

  lemma RotatedExtend<T>(s: seq<T>, u: seq<T>, ar: seq<nat>)
    requires |ar| >= 2 && InRange(ar, |s|) && Descending(ar)
    requires InRange(ar[..|ar| - 1], |s|) && Rotated(s, u, ar[..|ar| - 1])
    ensures Rotated(s, Swap(u, ar[|ar| - 2], ar[|ar| - 1]), ar)
  {
    var b := ar[..|ar| - 1];
    var x, y := ar[|ar| - 2], ar[|ar| - 1];
    var t := Swap(u, x, y);
    assert y !in b;
    assert b[|b| - 1] == x;
    forall j | 0 <= j < |ar| - 1
      ensures t[ar[j]] == s[ar[j + 1]]
    {
      if j < |b| - 1 { assert b[j] == ar[j] > x > y && b[j + 1] == ar[j + 1]; }
    }
    forall i | 0 <= i < |s| && i !in ar
      ensures t[i] == s[i]
    {
      assert x in ar && y in ar && i !in b;
    }
  }

  /** A chain of exchanges is one rotation. */
  lemma {:induction false} RotateAt<T>(s: seq<T>, ar: seq<nat>)
    requires InRange(ar, |s|) && Descending(ar) && ar != []
    ensures Rotated(s, Rotate(s, ar), ar)
  {
    if |ar| >= 2 {
      RotateAt(s, ar[..|ar| - 1]);
      RotatedExtend(s, Rotate(s, ar[..|ar| - 1]), ar);
    }
  }

  /** After `i` copies: the first `i` positions hold their successors' values. */
  ghost predicate Copied<T>(s: seq<T>, t: seq<T>, ar: seq<nat>, i: nat)
    requires ar != [] && InRange(ar, |s|) && i <= |ar|
  {
    && |t| == |s|
    && (forall j {:trigger ar[j]} :: 0 <= j < i ==> t[ar[j]] == if j == |ar| - 1 then s[ar[0]] else s[ar[j + 1]])
    && (forall x :: 0 <= x < |s| && x !in ar ==> t[x] == s[x])
    && (i < |ar| ==> forall x :: 0 <= x <= ar[i] ==> t[x] == s[x])
  }

  /** `cycle`: every element on the path takes the next one's value, the last the first's. */
  method Cycle<T>(a: array<T>, ar: seq<nat>)
    requires InRange(ar, a.Length) && Descending(ar)
    modifies a
    ensures a[..] == Rotate(old(a[..]), ar)
  {
    if |ar| < 2 { return; }
    ghost var s := a[..];
    var tmp := a[ar[0]];
    for i := 0 to |ar|
      invariant Copied(s, a[..], ar, i)
    {
      hide Copied;
      ghost var t := a[..];
      a[ar[i]] := if i + 1 < |ar| then a[ar[i + 1]] else tmp;
      assert a[..] == t[ar[i] := if i == |ar| - 1 then s[ar[0]] else s[ar[i + 1]]];
    }
    hide Rotate;
    RotateAt(s, ar);
    RotatedUnique(s, a[..], Rotate(s, ar), ar);
  }

  lemma RotatedUnique<T>(s: seq<T>, t: seq<T>, u: seq<T>, ar: seq<nat>)
    requires ar != [] && InRange(ar, |s|) && Rotated(s, t, ar) && Rotated(s, u, ar)
    ensures t == u
  {
    forall x | 0 <= x < |s|
      ensures t[x] == u[x]
    {
      if x in ar {
        var i :| 0 <= i < |ar| && ar[i] == x;
      }
    }
  }

  /** A path through the array from `head0` down to `head`. */
  ghost predicate Path(ar: seq<nat>, head0: nat, head: nat, n: nat) {
    && ar != [] && ar[0] == head0 && ar[|ar| - 1] == head
    && Descending(ar) && InRange(ar, n)
  }

  lemma RotateOne<T>(s: seq<T>, x: nat)
    requires x < |s|
    ensures Path([x], x, x, |s|) && Rotate(s, [x]) == s
  {
  }

  /** Below the end of the path nothing has moved; the carried value is at the end. */
  lemma RotateBelow<T>(s: seq<T>, ar: seq<nat>, head0: nat, head: nat)
    requires Path(ar, head0, head, |s|)
    ensures Rotate(s, ar)[head] == s[head0]
    ensures forall j :: 0 <= j < head ==> Rotate(s, ar)[j] == s[j]
  {
    RotateAt(s, ar);
    forall j | 0 <= j < head
      ensures j !in ar
    {
    }
  }

  lemma PathExtend<T>(s: seq<T>, ar: seq<nat>, head0: nat, head: nat, c: nat)
    requires Path(ar, head0, head, |s|) && c < head
    ensures Path(ar + [c], head0, c, |s|)
    ensures Rotate(s, ar + [c]) == Swap(Rotate(s, ar), head, c)
  {
    assert (ar + [c])[..|ar|] == ar;
  }

  // ------------------------------------------------------------------ sift

  /** The comparisons of `sift`, made in the unrotated array, choose the child that the
      sequence of exchanges would choose. */
  lemma SiftLook<T>(cmp: (T, T) -> int, s: seq<T>, ar: seq<nat>, head0: nat, head: nat, k: nat)
    requires Path(ar, head0, head, |s|) && k >= 2 && Leo(k) <= head + 1
    ensures SiftChild(cmp, Rotate(s, ar), head, k)
         == (if cmp(s[head0], s[Left(head, k)]) >= 0 && cmp(s[head0], s[head - 1]) >= 0 then head
             else if cmp(s[Left(head, k)], s[head - 1]) >= 0 then Left(head, k)
             else head - 1)
  {
    RotateBelow(s, ar, head0, head);
  }

  lemma SiftMove<T>(cmp: (T, T) -> int, s: seq<T>, ar: seq<nat>, head0: nat, head: nat, k: nat, c: nat)
    requires Path(ar, head0, head, |s|) && k >= 2 && Leo(k) <= head + 1
    requires c == SiftChild(cmp, Rotate(s, ar), head, k) && c != head
    ensures Path(ar + [c], head0, c, |s|) && Leo(ChildOrder(head, k, c)) <= c + 1
    ensures Sift(cmp, Rotate(s, ar), head, k) == Sift(cmp, Rotate(s, ar + [c]), c, ChildOrder(head, k, c))
  {
    PathExtend(s, ar, head0, head, c);
  }

  method SiftDown<T>(a: array<T>, head0: nat, cmp: (T, T) -> int, pshift0: nat, lp: seq<nat>)
    requires head0 < a.Length && Leo(pshift0) <= head0 + 1
    requires pshift0 <= MAX_ORDER && Table(lp, a.Length)
    modifies a
    ensures a[..] == Sift(cmp, old(a[..]), head0, pshift0)
  {
    hide Leo, Rotate;
    ghost var s := a[..];
    var head: nat, pshift: nat := head0, pshift0;
    var ar: seq<nat> := [head];
    RotateOne(s, head0);
    while pshift > 1
      invariant Path(ar, head0, head, |s|) && |ar| + pshift <= pshift0 + 1
      invariant Leo(pshift) <= head + 1 && a[..] == s
      invariant Sift(cmp, s, head0, pshift0) == Sift(cmp, Rotate(s, ar), head, pshift)
    {
      TableAt(lp, a.Length, pshift, pshift - 2);
      var rt := head - 1;
      var lf := head - 1 - lp[pshift - 2];
      SiftLook(cmp, s, ar, head0, head, pshift);
      if cmp(a[ar[0]], a[lf]) >= 0 && cmp(a[ar[0]], a[rt]) >= 0 {
        break;
      }
      if cmp(a[lf], a[rt]) >= 0 {
        SiftMove(cmp, s, ar, head0, head, pshift, lf);
        ar := ar + [lf];
        head := lf;
        pshift := pshift - 1;
      } else {
        SiftMove(cmp, s, ar, head0, head, pshift, rt);
        ar := ar + [rt];
        head := rt;
        pshift := pshift - 2;
      }
    }
    assert |ar| < AR_SIZE;
    Cycle(a, ar);
  }

  // ------------------------------------------------------------------ trinkle

  /** The code word, the nearest order and the nearest root position of a root list. */
  ghost predicate Chain(p: Vec, pshift: nat, os: seq<nat>, head: nat) {
    && Fits(os)
    && pshift == os[0]
    && Value(p) == Code(os)
    && Sum(os) == head + 1
  }

  lemma ChainEnd(p: Vec, pshift: nat, os: seq<nat>, head: nat)
    requires Chain(p, pshift, os, head)
    ensures p.lo == 1 && p.hi == 0 <==> |os| == 1
  {
    CodeOdd(os);
  }

  lemma {:induction false} RootCount(os: seq<nat>)
    requires os != [] && Increasing(os)
    ensures |os| + os[0] <= Last(os) + 1
  {
    if |os| > 1 {
      RootCount(os[1..]);
      assert Last(os[1..]) == Last(os);
    }
  }

  /** What the loop may read from the table while there is a further tree. */
  lemma ChainTable(p: Vec, pshift: nat, os: seq<nat>, head: nat, lp: seq<nat>, n: nat)
    requires Chain(p, pshift, os, head) && Table(lp, n) && head < n
    ensures pshift <= MAX_ORDER && lp[pshift] == Leo(pshift) <= head + 1
    ensures |os| > 1 ==> Leo(pshift) <= head
    ensures |os| <= MAX_ORDER + 1
    ensures pshift > 1 ==> lp[pshift - 2] == Leo(pshift - 2) && Left(head, pshift) >= 0
  {
    LastLargest(os);
    RootCount(os);
    TableAt(lp, n, pshift, pshift);
    if pshift > 1 { TableAt(lp, n, pshift, pshift - 2); }
  }

  /** The next tree in the chain and its code. */
  lemma ChainNext(p: Vec, pshift: nat, os: seq<nat>, head: nat)
    requires Chain(p, pshift, os, head) && |os| > 1
    ensures 0 < Pntz(p) < 64 && Leo(pshift) <= head
    ensures Chain(Shr(p, Pntz(p)), pshift + Pntz(p), os[1..], head - Leo(pshift))
  {
    hide Pntz, Shr, Ntz, Leo;
    LastLargest(os[1..]);
    assert Last(os[1..]) == Last(os);
    CodeOdd(os);
    CodeNext(os);
    PntzExact(p);
    ShrValue(p, os[1] - os[0]);
  }

  /** The loop of `trinkle`: rotating along the path so far and trinkling on is the goal. */
  ghost predicate Carrying<T>(cmp: (T, T) -> int, s: seq<T>, ar: seq<nat>, head0: nat,
                              os: seq<nat>, head: nat, trusty: bool, goal: seq<T>)
  {
    && Path(ar, head0, head, |s|)
    && os != [] && Sum(os) == head + 1
    && Trinkle(cmp, Rotate(s, ar), os, head, trusty) == goal
    && (trusty ==> ar == [head0])
  }

  lemma CarryStart<T>(cmp: (T, T) -> int, s: seq<T>, os: seq<nat>, head: nat, trusty: bool)
    requires os != [] && Sum(os) == head + 1 <= |s|
    ensures Rotate(s, [head]) == s
    ensures Carrying(cmp, s, [head], head, os, head, trusty, Trinkle(cmp, s, os, head, trusty))
  {
  }

  /** The test of the loop, in terms of the unrotated array. */
  ghost predicate Stuck<T>(cmp: (T, T) -> int, s: seq<T>, head0: nat, head: nat, p: nat, k: nat, lf: nat, trusty: bool)
    requires head0 < |s| && head < |s| && p < |s| && lf < |s| && (k > 1 ==> head > 0)
  {
    || cmp(s[p], s[head0]) <= 0
    || (!trusty && k > 1 && (cmp(s[head - 1], s[p]) >= 0 || cmp(s[lf], s[p]) >= 0))
  }

  lemma TrinkleMove<T>(cmp: (T, T) -> int, s: seq<T>, ar: seq<nat>, head0: nat,
                       os: seq<nat>, head: nat, trusty: bool, goal: seq<T>, lf: nat)
    requires Carrying(cmp, s, ar, head0, os, head, trusty, goal) && |os| > 1
    requires head0 < |s| && head < |s| && lf < |s|
    requires os[0] > 1 ==> lf == Left(head, os[0])
    requires !Stuck(cmp, s, head0, head, head - Leo(os[0]), os[0], lf, trusty)
    ensures Carrying(cmp, s, ar + [head - Leo(os[0])], head0, os[1..], head - Leo(os[0]), false, goal)
  {
    RotateBelow(s, ar, head0, head);
    PathExtend(s, ar, head0, head, head - Leo(os[0]));
  }

  lemma TrinkleStop<T>(cmp: (T, T) -> int, s: seq<T>, ar: seq<nat>, head0: nat,
                       os: seq<nat>, head: nat, trusty: bool, goal: seq<T>, lf: nat)
    requires Carrying(cmp, s, ar, head0, os, head, trusty, goal)
    requires head0 < |s| && head < |s| && lf < |s|
    requires os[0] > 1 ==> lf == Left(head, os[0])
    requires |os| > 1 ==> Stuck(cmp, s, head0, head, head - Leo(os[0]), os[0], lf, trusty)
    ensures goal == if trusty then s else Sift(cmp, Rotate(s, ar), head, os[0])
    ensures Leo(os[0]) <= head + 1
  {
    RotateBelow(s, ar, head0, head);
  }

  method TrinkleRoots<T>(a: array<T>, head0: nat, cmp: (T, T) -> int, p0: Vec, pshift0: nat, trusty0: bool,
                         lp: seq<nat>, ghost os0: seq<nat>)
    requires Chain(p0, pshift0, os0, head0) && head0 < a.Length && Table(lp, a.Length)
    modifies a
    ensures a[..] == Trinkle(cmp, old(a[..]), os0, head0, trusty0)
  {
    hide Fits, Increasing, Sparse, Code, Trinkle, Sift, Rotate, Pntz, Shr, Leo;
    ghost var s := a[..];
    ghost var os, goal := os0, Trinkle(cmp, s, os0, head0, trusty0);
    var head: nat, pshift: nat, p, trusty := head0, pshift0, p0, trusty0;
    var ar: seq<nat> := [head];
    ChainEnd(p, pshift, os, head);
    ChainTable(p, pshift, os, head, lp, a.Length);
    CarryStart(cmp, s, os, head, trusty);
    while p.lo != 1 || p.hi != 0
      invariant a[..] == s && |ar| + |os| == 1 + |os0|
      invariant Chain(p, pshift, os, head) && (p.lo == 1 && p.hi == 0 <==> |os| == 1)
      invariant Carrying(cmp, s, ar, head0, os, head, trusty, goal)
      decreases |os|
    {
      ChainTable(p, pshift, os, head, lp, a.Length);
      var stepson := head - lp[pshift];
      if cmp(a[stepson], a[ar[0]]) <= 0 {
        break;
      }
      if !trusty && pshift > 1 {
        var rt := head - 1;
        var lf := head - 1 - lp[pshift - 2];
        if cmp(a[rt], a[stepson]) >= 0 || cmp(a[lf], a[stepson]) >= 0 {
          break;
        }
      }
      TrinkleMove(cmp, s, ar, head0, os, head, trusty, goal, if pshift > 1 then Left(head, pshift) else 0);
      ChainNext(p, pshift, os, head);
      ar := ar + [stepson];
      head := stepson;
      var trail := Pntz(p);
      p := Shr(p, trail);
      pshift := pshift + trail;
      trusty := false;
      os := os[1..];
      ChainEnd(p, pshift, os, head);
    }
    ChainTable(p, pshift, os, head, lp, a.Length);
    TrinkleStop(cmp, s, ar, head0, os, head, trusty, goal, if pshift > 1 then Left(head, pshift) else 0);
    if !trusty {
      assert |ar| < AR_SIZE;
      Cycle(a, ar);
      SiftDown(a, head, cmp, pshift, lp);
    }
  }

  // ------------------------------------------------------------------ steps of the code word

  lemma CodeFits(os: seq<nat>, n: nat)
    requires Fits(os) && n <= os[0] + 2
    ensures Code(os) * Pow2(n) < WORD * WORD
  {
    hide Pow2, Code;
    CodeBound(os);
    var b := Last(os) - os[0] + 1;
    Pow2Add(b, n);
    DoubleWord(b + n);
    Product(Code(os), Pow2(b), Pow2(n));
  }

  lemma Product(c: nat, b: nat, p: nat)
    requires c < b && p > 0
    ensures c * p < b * p
  {
  }

  lemma DoubleWord(m: nat)
    requires m <= 128
    ensures Pow2(m) <= WORD * WORD
  {
    hide Pow2;
    Pow2Word();
    Pow2Add(64, 64);
    Pow2Mono(m, 128);
  }

  lemma Pow2Small()
    ensures Pow2(1) == 2 && Pow2(2) == 4
  {
  }

  /** `shr(p, 2); p[0] |= 1`: the two nearest trees and a new root become one tree. */
  lemma VecMerge(p: Vec, os: seq<nat>)
    requires |os| > 1 && Shape(os) && os[1] == os[0] + 1 && Value(p) == Code(os)
    ensures Shape([os[0] + 2] + os[2..])
    ensures Value(SetLow(Shr(p, 2))) == Code([os[0] + 2] + os[2..])
  {
    hide Pow2, Or, Code, Increasing, Sparse;
    CodeMerge(os);
    Pow2Small();
    ShrValue(p, 2);
    SetLowValue(Shr(p, 2));
  }

  /** `shl(p, os[0] - k); p[0] |= 1`: a new nearest tree of order `k`. */
  lemma VecPush(p: Vec, os: seq<nat>, k: nat)
    requires Fits(os) && k < os[0] && os[0] - k < 64 && Value(p) == Code(os)
    ensures Increasing([k] + os)
    ensures Value(SetLow(Shl(p, os[0] - k))) == Code([k] + os)
  {
    hide Pow2, Or, Code, Value;
    var n := os[0] - k;
    CodePush(os, k);
    HalfScale(Code(os), n);
    CodeFits(os, n);
    ShlValue(p, n);
    SetLowValue(Shl(p, n));
  }

  /** `shl(p, 2); p[0] ^= 7; shr(p, 1)`: the nearest tree gives way to its left child. */
  lemma VecSplit(p: Vec, os: seq<nat>)
    requires Fits(os) && os[0] >= 2 && Value(p) == Code(os)
    ensures Fits([os[0] - 1] + os[1..])
    ensures Value(Shr(FlipSeven(Shl(p, 2)), 1)) == Code([os[0] - 1] + os[1..])
  {
    hide Pow2, Or, Xor, Code, Value;
    LeftShape(os);
    LeftCode(os);
    CodeOdd(os);
    CodeFits(os, 2);
    FlipVec(p, Code(os));
  }

  lemma FlipVec(p: Vec, v: nat)
    requires Value(p) == v && v % 2 == 1 && v * Pow2(2) < WORD * WORD
    ensures Value(Shr(FlipSeven(Shl(p, 2)), 1)) == 2 * v - 1
  {
    hide Pow2, Or, Xor, Value;
    Pow2Small();
    ShlValue(p, 2);
    FlipSevenValue(Shl(p, 2));
    ShrValue(FlipSeven(Shl(p, 2)), 1);
  }

  lemma LeftShape(os: seq<nat>)
    requires Fits(os) && os[0] >= 2
    ensures Fits([os[0] - 1] + os[1..])
  {
    var m := [os[0] - 1] + os[1..];
    assert m[1..] == os[1..];
    assert Last(m) == if |os| > 1 then Last(os) else os[0] - 1;
  }

  lemma LeftCode(os: seq<nat>)
    requires os != [] && os[0] >= 1 && Increasing(os)
    ensures Increasing([os[0] - 1] + os[1..])
    ensures Code([os[0] - 1] + os[1..]) == 2 * Code(os) - 1
  {
    hide Code;
    var m := [os[0] - 1] + os[1..];
    assert m[1..] == os[1..];
    CodeLowered(m, os, os[1..]);
  }

  lemma CodeLowered(m: seq<nat>, os: seq<nat>, r: seq<nat>)
    requires os != [] && m != [] && os[0] == m[0] + 1 && os[1..] == m[1..] == r
    requires Increasing(os) && Increasing(m)
    ensures Code(m) == 2 * Code(os) - 1
  {
    hide Code, Pow2, Increasing;
    CodeUnfold(os, r);
    CodeUnfold(m, r);
    if r != [] {
      DoubleScale(Code(r), r[0] - os[0]);
    }
  }

  lemma DoubleScale(c: nat, g: nat)
    ensures c * Pow2(g + 1) == 2 * (c * Pow2(g))
  {
    HalfScale(c, g + 1);
  }

  /** The test `(p[0] & 3) == 3`. */
  lemma LowBits(p: Vec, pshift: nat, os: seq<nat>, head: nat)
    requires Chain(p, pshift, os, head)
    ensures p.lo % 4 == 3 <==> |os| > 1 && os[1] == os[0] + 1
  {
    hide Code;
    CodeOdd(os);
    LowTwo(p);
  }

  lemma LowTwo(p: Vec)
    ensures Value(p) % 4 == p.lo % 4
  {
  }

  lemma StepMerge(p: Vec, pshift: nat, os: seq<nat>, head: nat, n: nat)
    requires Chain(p, pshift, os, head) && p.lo % 4 == 3 && head + 1 < n <= MAX_LENGTH
    ensures |os| > 1 && os[1] == os[0] + 1
    ensures Chain(SetLow(Shr(p, 2)), pshift + 2, [os[0] + 2] + os[2..], head + 1)
  {
    hide Code, Leo, Value, Sum, Increasing, Sparse;
    LowBits(p, pshift, os, head);
    VecMerge(p, os);
    MergedSum(os);
    FitsFromSum([os[0] + 2] + os[2..], n);
  }

  lemma StepPush(p: Vec, pshift: nat, os: seq<nat>, head: nat, n: nat)
    requires Chain(p, pshift, os, head) && p.lo % 4 != 3 && head + 1 < n <= MAX_LENGTH
    ensures pshift >= 1 && Sparse(os) && 0 < pshift - NewOrder(pshift) < 64
    ensures Chain(SetLow(Shl(p, pshift - NewOrder(pshift))), NewOrder(pshift), [NewOrder(pshift)] + os, head + 1)
  {
    hide Code, Leo, Value, Sum, Increasing, Sparse;
    LowBits(p, pshift, os, head);
    PushShape(os);
    FitsFromSum(os, n);
    LastLargest(os);
    VecPush(p, os, NewOrder(pshift));
    ShiftedSum(NewOrder(pshift), os);
    LeoSmall();
    FitsFromSum([NewOrder(pshift)] + os, n);
  }

  /** Replacing the nearest tree by its left child, then adding the right child. */
  lemma StepSplit(p: Vec, pshift: nat, os: seq<nat>, head: nat)
    requires Chain(p, pshift, os, head) && pshift >= 2
    ensures Leo(pshift) <= head + 1
    ensures Chain(Shr(FlipSeven(Shl(p, 2)), 1), pshift - 1, [pshift - 1] + os[1..], Left(head, pshift))
  {
    hide Code, Value;
    VecSplit(p, os);
    ShiftedSum(pshift - 1, os[1..]);
  }

  lemma StepRight(p: Vec, pshift: nat, os: seq<nat>, l: nat, head: nat)
    requires Chain(p, pshift + 1, os, l) && head == l + Leo(pshift) + 1
    requires |os| > 1 ==> os[1] >= pshift + 3
    requires Last(os) < MAX_ORDER
    ensures Chain(SetLow(Shl(p, 1)), pshift, [pshift] + os, head - 1)
  {
    hide Code, Value, Leo;
    VecPush(p, os, pshift);
    ShiftedSum(pshift, os);
    assert ([pshift] + os)[1..] == os;
  }

  /** The table of Leonardo numbers, as `qsort` computes it before sorting. */
  method LeonardoTable(n: nat) returns (lp: seq<nat>)
    requires n <= MAX_LENGTH
    ensures Table(lp, n)
  {
    hide Leo;
    var t := new nat[LP_SIZE];
    LeoSmall();
    LeoNext(2);
    t[0], t[1], t[2] := 1, 1, 3;
    var i := 2;
    while t[i] < n
      invariant 2 <= i <= MAX_ORDER
      invariant forall j {:trigger t[j]} :: 0 <= j <= i ==> t[j] == Leo(j)
      decreases MAX_ORDER - i
    {
      MaxLength();
      OrderBelow(i, MAX_ORDER);
      LeoNext(i + 1);
      i := i + 1;
      t[i] := t[i - 2] + t[i - 1] + 1;
    }
    lp := t[..];
    forall j | 0 <= j <= MAX_ORDER && (j < 2 || Leo(j - 1) < n)
      ensures lp[j] == Leo(j)
    {
      if j > i { LeoMono(i, j - 1); }
    }
  }

  // ------------------------------------------------------------------ qsort

  /** The first loop: grow the forest until its newest root is the last element. The shape
      it reaches depends on the number of elements alone. */
  method Grow<T(!new)>(a: array<T>, cmp: (T, T) -> int, lp: seq<nat>)
    returns (p: Vec, pshift: nat, head: nat, ghost os: seq<nat>)
    requires 0 < a.Length <= MAX_LENGTH && Table(lp, a.Length)
    modifies a
    ensures Chain(p, pshift, os, head) && head == a.Length - 1 && os == Orders(a.Length)
    ensures multiset(a[..]) == multiset(old(a[..]))
    ensures TotalPreorder(cmp) ==> Growing(cmp, a[..], os, head)
  {
    hide Code, Value, Leo, Sum, Increasing, Sparse, Growing, TotalPreorder, Sift, Trinkle, Orders;
    var high := a.Length - 1;
    p, pshift, head := Vec(1, 0), 1, 0;
    os := [1];
    GrowStart(cmp, a[..]);
    OrdersNext(0);
    while head < high
      invariant 0 <= head <= high && Chain(p, pshift, os, head) && os == Orders(head + 1)
      invariant multiset(a[..]) == multiset(old(a[..]))
      invariant TotalPreorder(cmp) ==> Growing(cmp, a[..], os, head)
    {
      ghost var s := a[..];
      ChainTable(p, pshift, os, head, lp, a.Length);
      SiftFrame(cmp, s, head, os[0]);
      TrinkleFrame(cmp, s, os, head, false);
      OrdersNext(head + 1);
      LowBits(p, pshift, os, head);
      if p.lo % 4 == 3 {
        StepMerge(p, pshift, os, head, a.Length);
        if TotalPreorder(cmp) { GrowMerge(cmp, s, os, head); }
        SiftDown(a, head, cmp, pshift, lp);
        p := Shr(p, 2);
        pshift := pshift + 2;
        os := [os[0] + 2] + os[2..];
      } else {
        StepPush(p, pshift, os, head, a.Length);
        GrowTable(lp, a.Length, pshift, head);
        if lp[pshift - 1] >= high - head {
          if TotalPreorder(cmp) { GrowFinal(cmp, s, os, head, NewOrder(pshift)); }
          TrinkleRoots(a, head, cmp, p, pshift, false, lp, os);
        } else {
          if TotalPreorder(cmp) { GrowOpen(cmp, s, os, head, NewOrder(pshift)); }
          SiftDown(a, head, cmp, pshift, lp);
        }
        os := [NewOrder(pshift)] + os;
        if pshift == 1 {
          p := Shl(p, 1);
          pshift := 0;
        } else {
          p := Shl(p, pshift - 1);
          pshift := 1;
        }
      }
      p := SetLow(p);
      head := head + 1;
    }
  }

  lemma OrdersNext(m: nat)
    ensures m == 0 ==> Orders(1) == [1]
    ensures m > 0 ==> Orders(m + 1) == NextOrders(Orders(m))
  {
  }

  lemma GrowStart<T(!new)>(cmp: (T, T) -> int, s: seq<T>)
    requires s != []
    ensures Chain(Vec(1, 0), 1, [1], 0)
    ensures Growing(cmp, s, [1], 0)
  {
  }

  lemma GrowTable(lp: seq<nat>, n: nat, k: nat, head: nat)
    requires Table(lp, n) && 1 <= k <= MAX_ORDER && Leo(k) <= head + 1 <= n
    ensures lp[k - 1] == Leo(k - 1)
    ensures lp[k - 1] >= n - 1 - head <==> Never(k, n - 1 - head)
  {
    TableAt(lp, n, k, k - 1);
  }

  /** The second loop: take the maximum off the right end until one element is left. */
  method Drain<T(!new)>(a: array<T>, cmp: (T, T) -> int, lp: seq<nat>, p0: Vec, pshift0: nat, head0: nat,
                        ghost os0: seq<nat>)
    requires head0 < a.Length <= MAX_LENGTH && Table(lp, a.Length) && Chain(p0, pshift0, os0, head0)
    requires TotalPreorder(cmp) ==> Draining(cmp, a[..], os0, head0)
    modifies a
    ensures multiset(a[..]) == multiset(old(a[..]))
    ensures TotalPreorder(cmp) ==> Done(cmp, a[..], 0)
  {
    hide Code, Value, Leo, Sum, Increasing, Sparse, Draining, TotalPreorder, Trinkle, Shl, Shr, SetLow, FlipSeven;
    var p, pshift: nat, head: nat := p0, pshift0, head0;
    ghost var os := os0;
    while pshift != 1 || p.lo != 1 || p.hi != 0
      invariant head < a.Length && Chain(p, pshift, os, head)
      invariant multiset(a[..]) == multiset(old(a[..]))
      invariant TotalPreorder(cmp) ==> Draining(cmp, a[..], os, head)
      decreases head
    {
      ghost var s := a[..];
      ChainEnd(p, pshift, os, head);
      if pshift <= 1 {
        ChainNext(p, pshift, os, head);
        LeoSmall();
        if TotalPreorder(cmp) { DrainSingle(cmp, s, os, head); }
        var trail := Pntz(p);
        p := Shr(p, trail);
        pshift := pshift + trail;
        os := os[1..];
      } else {
        ghost var left: seq<nat>, both: seq<nat> := [pshift - 1] + os[1..], [pshift - 2, pshift - 1] + os[1..];
        BothShape(os, left, both, head, a.Length);
        ghost var l := Left(head, pshift);
        StepSplit(p, pshift, os, head);
        DrainTable(lp, a.Length, pshift, head);
        StepRight(Shr(FlipSeven(Shl(p, 2)), 1), pshift - 2, left, l, head);
        assert both == [pshift - 2] + left;
        if TotalPreorder(cmp) { DrainSplit(cmp, s, os, left, both, head); }
        TrinkleFrame(cmp, s, left, l, true);
        p := Shl(p, 2);
        pshift := pshift - 2;
        p := FlipSeven(p);
        p := Shr(p, 1);
        TrinkleRoots(a, head - lp[pshift] - 1, cmp, p, pshift + 1, true, lp, left);
        TrinkleFrame(cmp, a[..], both, head - 1, true);
        p := Shl(p, 1);
        p := SetLow(p);
        TrinkleRoots(a, head - 1, cmp, p, pshift, true, lp, both);
        os := both;
      }
      head := head - 1;
    }
    ChainEnd(p, pshift, os, head);
    if TotalPreorder(cmp) { DrainEnd(cmp, a[..], p, os, head); }
  }

  lemma DrainTable(lp: seq<nat>, n: nat, k: nat, head: nat)
    requires Table(lp, n) && 2 <= k <= MAX_ORDER && Leo(k) <= head + 1 <= n
    ensures lp[k - 2] == Leo(k - 2)
  {
    TableAt(lp, n, k, k - 2);
  }

  /** The root lists that replace `os` when the nearest root is taken off. */
  lemma BothShape(os: seq<nat>, left: seq<nat>, both: seq<nat>, head: nat, n: nat)
    requires Fits(os) && os[0] >= 2 && Sum(os) == head + 1 <= n <= MAX_LENGTH
    requires left == [os[0] - 1] + os[1..] && both == [os[0] - 2, os[0] - 1] + os[1..]
    ensures both == [os[0] - 2] + left && os[0] <= MAX_ORDER && Leo(os[0]) <= head + 1
    ensures Last(left) < MAX_ORDER && (|left| > 1 ==> left[1] >= os[0] + 1)
  {
    LastLargest(os);
    assert left[1..] == os[1..];
    assert Last(left) == if |os| > 1 then Last(os) else os[0] - 1;
  }

  lemma DrainSplit<T(!new)>(cmp: (T, T) -> int, s: seq<T>, os: seq<nat>, left: seq<nat>, both: seq<nat>, h: nat)
    requires os != [] && os[0] >= 2 && Sum(os) == h + 1 <= |s|
    requires left == [os[0] - 1] + os[1..] && both == [os[0] - 2] + left
    requires TotalPreorder(cmp) && Draining(cmp, s, os, h)
    ensures Sum(left) == Left(h, os[0]) + 1 && Sum(both) == h
    ensures Draining(cmp, Trinkle(cmp, Trinkle(cmp, s, left, Left(h, os[0]), true), both, h - 1, true), both, h - 1)
  {
    hide Draining, AlmostForest, TotalPreorder, Trinkle, Done, Heap;
    DrainLeft(cmp, s, os, h);
    DrainRight(cmp, s, left, Left(h, os[0]), h, os[0] - 2);
    DrainAgain(cmp, Trinkle(cmp, s, left, Left(h, os[0]), true), both, h - 1);
  }

  lemma DrainEnd<T(!new)>(cmp: (T, T) -> int, s: seq<T>, p: Vec, os: seq<nat>, h: nat)
    requires Chain(p, 1, os, h) && |os| == 1 && h < |s|
    requires Draining(cmp, s, os, h)
    ensures Done(cmp, s, 0)
  {
    assert Sum(os[1..]) == 0;
  }

  /** `qsort`: a permutation for every comparator, ascending for every total preorder. */
  method Qsort<T(!new)>(a: array<T>, cmp: (T, T) -> int)
    requires a.Length <= MAX_LENGTH
    modifies a
    ensures multiset(a[..]) == multiset(old(a[..]))
    ensures TotalPreorder(cmp) ==> Sorted(cmp, a[..])
  {
    if a.Length == 0 { return; }
    hide Code, Value, Leo, Sum, Fits, Growing, Draining, TotalPreorder, Trinkle, Done, Sorted, Table;
    var lp := LeonardoTable(a.Length);
    ghost var os;
    var p, pshift, head;
    p, pshift, head, os := Grow(a, cmp, lp);
    ghost var s := a[..];
    TrinkleFrame(cmp, s, os, head, false);
    TrinkleRoots(a, head, cmp, p, pshift, false, lp, os);
    if TotalPreorder(cmp) { GrownForest(cmp, s, os, head); }
    Drain(a, cmp, lp, p, pshift, head, os);
    if TotalPreorder(cmp) { DrainedSorted(cmp, a[..]); }
  }

  lemma GrownForest<T(!new)>(cmp: (T, T) -> int, s: seq<T>, os: seq<nat>, h: nat)
    requires Shape(os) && Sum(os) == h + 1 == |s|
    requires TotalPreorder(cmp) && Growing(cmp, s, os, h)
    ensures Draining(cmp, Trinkle(cmp, s, os, h, false), os, h)
  {
    GrowDone(cmp, s, os, h);
    TrinkleForest(cmp, s, os, h, false);
  }
}
