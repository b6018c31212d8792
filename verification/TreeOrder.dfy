/** Search order: what a descent through the tree knows, the neighbours of a value, and the
    sorted sequence of values that the tree stands for. */
module TreeOrder {
  import opened Comparators
  import opened SlotLists
  import opened TreeShape

  // ------------------------------------------------------------------ sorted sequences

  ghost predicate Sorted<T>(cmp: (T, T) -> int, d: seq<T>) {
    forall i, j :: 0 <= i < j < |d| ==> cmp(d[i], d[j]) < 0
  }

  lemma {:induction false} SortedParts<T>(cmp: (T, T) -> int, d: seq<T>, e: seq<T>)
    ensures Sorted(cmp, d + e) <==>
              Sorted(cmp, d) && Sorted(cmp, e) && forall i, j :: 0 <= i < |d| && 0 <= j < |e| ==> cmp(d[i], e[j]) < 0
  {
    var u := d + e;
    assert forall i :: 0 <= i < |d| ==> u[i] == d[i];
    assert forall j :: 0 <= j < |e| ==> u[|d| + j] == e[j];
    assert forall k :: |d| <= k < |u| ==> u[k] == e[k - |d|];
  }

  /** Whether a value comes before a cut at `v`, which leaves out values equal to `v` when strict. */
  predicate Under<T>(cmp: (T, T) -> int, x: T, v: T, strict: bool) {
    if strict then cmp(x, v) < 0 else cmp(x, v) <= 0
  }

  ghost predicate AllUnder<T>(cmp: (T, T) -> int, d: seq<T>, v: T, strict: bool) {
    forall k :: 0 <= k < |d| ==> Under(cmp, d[k], v, strict)
  }

  ghost predicate NoneUnder<T>(cmp: (T, T) -> int, d: seq<T>, v: T, strict: bool) {
    forall k :: 0 <= k < |d| ==> !Under(cmp, d[k], v, strict)
  }

  lemma {:induction false} UnderParts<T>(cmp: (T, T) -> int, d: seq<T>, e: seq<T>, v: T, strict: bool)
    ensures AllUnder(cmp, d + e, v, strict) <==> AllUnder(cmp, d, v, strict) && AllUnder(cmp, e, v, strict)
    ensures NoneUnder(cmp, d + e, v, strict) <==> NoneUnder(cmp, d, v, strict) && NoneUnder(cmp, e, v, strict)
  {
    var u := d + e;
    assert forall i :: 0 <= i < |d| ==> u[i] == d[i];
    assert forall j :: 0 <= j < |e| ==> u[|d| + j] == e[j];
    assert forall k :: |d| <= k < |u| ==> u[k] == e[k - |d|];
  }

  /** In a sorted sequence, what comes before a value lies below whatever that value does not exceed. */
  lemma {:induction false} UnderAt<T(!new)>(cmp: (T, T) -> int, d: seq<T>, x: T, e: seq<T>, v: T)
    requires TotalPreorder(cmp) && Sorted(cmp, d + [x] + e)
    ensures cmp(x, v) <= 0 ==> AllUnder(cmp, d, v, true) && AllUnder(cmp, d, v, false)
    ensures cmp(x, v) >= 0 ==> NoneUnder(cmp, e, v, true) && NoneUnder(cmp, e, v, false)
  {
    hide TotalPreorder;
    SortedParts(cmp, d + [x], e);
    SortedParts(cmp, d, [x]);
    forall k | 0 <= k < |d| && cmp(x, v) <= 0
      ensures cmp(d[k], v) < 0
    {
      assert cmp(d[k], [x][0]) < 0;
      Mixed(cmp, d[k], x, v);
    }
    forall k | 0 <= k < |e| && cmp(x, v) >= 0
      ensures cmp(e[k], v) > 0
    {
      assert cmp((d + [x])[|d|], e[k]) < 0;
      Mixed(cmp, v, x, e[k]);
      Mixed(cmp, x, v, v);
      Mixed(cmp, v, e[k], v);
    }
  }

  // ------------------------------------------------------------------ values of slots

  ghost predicate InArray<T>(m: seq<Node<T>>, s: seq<nat>) { forall x :: x in s ==> x < |m| }

  /** The values in the slots of `s`. */
  ghost function Data<T>(m: seq<Node<T>>, s: seq<nat>): (d: seq<T>)
    requires InArray(m, s)
    ensures |d| == |s|
    ensures forall k :: 0 <= k < |s| ==> s[k] < |m| && d[k] == m[s[k]].data
  {
    assert forall k :: 0 <= k < |s| ==> s[k] in s;
    seq(|s|, k requires 0 <= k < |s| => m[s[k]].data)
  }

  lemma {:induction false} DataParts<T>(m: seq<Node<T>>, s: seq<nat>, t: seq<nat>)
    ensures InArray(m, s + t) <==> InArray(m, s) && InArray(m, t)
    ensures InArray(m, s + t) ==> Data(m, s + t) == Data(m, s) + Data(m, t)
  {
    assert forall x :: x in s + t <==> x in s || x in t;
  }

  lemma {:induction false} DataOne<T>(m: seq<Node<T>>, i: nat)
    requires i < |m|
    ensures InArray(m, [i]) && Data(m, [i]) == [m[i].data]
  {
  }

  lemma {:induction false} DataSame<T>(m: seq<Node<T>>, m': seq<Node<T>>, s: seq<nat>)
    requires InArray(m, s) && |m'| >= |m|
    requires forall x :: x in s ==> x < |m| && m'[x].data == m[x].data
    ensures InArray(m', s) && Data(m', s) == Data(m, s)
  {
    assert forall k :: 0 <= k < |s| ==> s[k] in s;
  }

  /** A cut in the tree at the hole: values before it below `v`, values after it above. */
  ghost predicate Cut<T>(cmp: (T, T) -> int, m: seq<Node<T>>, c: Ctx, v: T) {
    && InArray(m, Before(c)) && InArray(m, After(c))
    && AllUnder(cmp, Data(m, Before(c)), v, true) && NoneUnder(cmp, Data(m, After(c)), v, false)
  }

  /** The values around the top of a focused subtree. */
  lemma {:induction false} DataAt<T>(m: seq<Node<T>>, c: Ctx, l: Tree, i: nat, r: Tree)
    requires InArray(m, Idx(Plug(c, Bin(l, i, r))))
    ensures i < |m| && InArray(m, Before(c)) && InArray(m, Idx(l)) && InArray(m, Idx(r)) && InArray(m, After(c))
    ensures var b, x, y, a := Data(m, Before(c)), Data(m, Idx(l)), Data(m, Idx(r)), Data(m, After(c));
            Data(m, Idx(Plug(c, Bin(l, i, r)))) == (b + x) + [m[i].data] + (y + a)
  {
    var t := Bin(l, i, r);
    IdxPlug(c, t);
    assert Idx(t) == Idx(l) + [i] + Idx(r);
    hide Idx, Plug, Before, After, InArray;
    DataParts(m, Before(c) + Idx(t), After(c));
    DataParts(m, Before(c), Idx(t));
    DataParts(m, Idx(l) + [i], Idx(r));
    DataParts(m, Idx(l), [i]);
    OneIn(m, i);
    DataOne(m, i);
    DataAssoc(Data(m, Before(c)), Data(m, Idx(l)), [m[i].data], Data(m, Idx(r)), Data(m, After(c)));
  }

  lemma {:induction false} OneIn<T>(m: seq<Node<T>>, i: nat)
    requires InArray(m, [i])
    ensures i < |m|
  {
    assert i in [i];
  }

  lemma {:induction false} DataAssoc<T>(b: seq<T>, x: seq<T>, i: seq<T>, y: seq<T>, a: seq<T>)
    ensures b + (x + i + y) + a == (b + x) + i + (y + a)
  {
  }

  // ------------------------------------------------------------------ descending

  /** One step down keeps the cut around `v`. */
  lemma {:induction false} Descend<T(!new)>(cmp: (T, T) -> int, m: seq<Node<T>>, c: Ctx, l: Tree, i: nat, r: Tree, v: T)
    requires TotalPreorder(cmp) && Cut(cmp, m, c, v)
    requires InArray(m, Idx(Plug(c, Bin(l, i, r)))) && Sorted(cmp, Data(m, Idx(Plug(c, Bin(l, i, r)))))
    ensures i < |m|
    ensures cmp(m[i].data, v) < 0 ==> Cut(cmp, m, InRight(c, l, i), v)
    ensures cmp(m[i].data, v) > 0 ==> Cut(cmp, m, InLeft(c, i, r), v)
  {
    DataAt(m, c, l, i, r);
    var b, x, y, a := Data(m, Before(c)), Data(m, Idx(l)), Data(m, Idx(r)), Data(m, After(c));
    assert Before(InRight(c, l, i)) == Before(c) + (Idx(l) + [i]) && After(InRight(c, l, i)) == After(c);
    assert After(InLeft(c, i, r)) == ([i] + Idx(r)) + After(c) && Before(InLeft(c, i, r)) == Before(c);
    hide Idx, Plug, Before, After, InArray, Sorted, TotalPreorder, AllUnder, NoneUnder;
    UnderAt(cmp, b + x, m[i].data, y + a, v);
    UnderParts(cmp, b, x, v, true);
    UnderParts(cmp, y, a, v, false);
    DataOne(m, i);
    if cmp(m[i].data, v) < 0 {
      DataParts(m, Before(c), Idx(l) + [i]);
      DataParts(m, Idx(l), [i]);
      UnderParts(cmp, x, [m[i].data], v, true);
      UnderParts(cmp, b, x + [m[i].data], v, true);
    }
    if cmp(m[i].data, v) > 0 {
      DataParts(m, [i] + Idx(r), After(c));
      DataParts(m, [i], Idx(r));
      UnderParts(cmp, [m[i].data], y, v, false);
      UnderParts(cmp, [m[i].data] + y, a, v, false);
    }
  }

  // ------------------------------------------------------------------ neighbours

  /** `r` is the slot of the greatest value under the cut, or 0 if there is none. */
  ghost predicate IsLast<T>(cmp: (T, T) -> int, m: seq<Node<T>>, s: seq<nat>, v: T, strict: bool, r: nat)
    requires InArray(m, s)
  {
    if r == 0 then forall x :: x in s ==> x < |m| && !Under(cmp, m[x].data, v, strict)
    else r in s && r < |m| && Under(cmp, m[r].data, v, strict)
         && forall x :: x in s ==> x < |m| && (Under(cmp, m[x].data, v, strict) ==> cmp(m[x].data, m[r].data) <= 0)
  }

  /** `r` is the slot of the least value not under the cut, or 0 if there is none. */
  ghost predicate IsFirst<T>(cmp: (T, T) -> int, m: seq<Node<T>>, s: seq<nat>, v: T, strict: bool, r: nat)
    requires InArray(m, s)
  {
    if r == 0 then forall x :: x in s ==> x < |m| && Under(cmp, m[x].data, v, strict)
    else r in s && r < |m| && !Under(cmp, m[r].data, v, strict)
         && forall x :: x in s ==> x < |m| && (!Under(cmp, m[x].data, v, strict) ==> cmp(m[r].data, m[x].data) <= 0)
  }

  lemma {:induction false} LastUnder<T(!new)>(cmp: (T, T) -> int, m: seq<Node<T>>, a: seq<nat>, v: T, strict: bool,
                                              x: nat)
    requires TotalPreorder(cmp) && InArray(m, a) && x in a
    requires Sorted(cmp, Data(m, a)) && AllUnder(cmp, Data(m, a), v, strict)
    ensures LastOr0(a) in a && LastOr0(a) < |m|
    ensures x < |m| && Under(cmp, m[x].data, v, strict) && cmp(m[x].data, m[LastOr0(a)].data) <= 0
  {
    hide TotalPreorder, Under;
    var k :| 0 <= k < |a| && a[k] == x;
    var d := Data(m, a);
    assert d[k] == m[x].data && d[|a| - 1] == m[LastOr0(a)].data;
    Mixed(cmp, m[x].data, m[x].data, m[x].data);
    assert k < |a| - 1 ==> cmp(d[k], d[|a| - 1]) < 0;
  }

  lemma {:induction false} FirstNotUnder<T(!new)>(cmp: (T, T) -> int, m: seq<Node<T>>, b: seq<nat>, v: T,
        strict: bool, x: nat)
    requires TotalPreorder(cmp) && InArray(m, b) && x in b
    requires Sorted(cmp, Data(m, b)) && NoneUnder(cmp, Data(m, b), v, strict)
    ensures FirstOr0(b) in b && FirstOr0(b) < |m|
    ensures x < |m| && !Under(cmp, m[x].data, v, strict) && cmp(m[FirstOr0(b)].data, m[x].data) <= 0
  {
    hide TotalPreorder, Under;
    var k :| 0 <= k < |b| && b[k] == x;
    var d := Data(m, b);
    assert d[k] == m[x].data && d[0] == m[FirstOr0(b)].data;
    Mixed(cmp, m[x].data, m[x].data, m[x].data);
    assert k > 0 ==> cmp(d[0], d[k]) < 0;
  }

  lemma {:induction false} CutLast<T(!new)>(cmp: (T, T) -> int, m: seq<Node<T>>, a: seq<nat>, b: seq<nat>, v: T,
                                            strict: bool)
    requires TotalPreorder(cmp) && InArray(m, a + b) && InArray(m, a) && InArray(m, b) && 0 !in a
    requires Sorted(cmp, Data(m, a)) && AllUnder(cmp, Data(m, a), v, strict) && NoneUnder(cmp, Data(m, b), v, strict)
    ensures IsLast(cmp, m, a + b, v, strict, LastOr0(a))
  {
    hide TotalPreorder, Under, Sorted, AllUnder, InArray, LastOr0;
    forall x | x in a
      ensures LastOr0(a) in a && LastOr0(a) < |m|
      ensures x < |m| && Under(cmp, m[x].data, v, strict) && cmp(m[x].data, m[LastOr0(a)].data) <= 0
    {
      LastUnder(cmp, m, a, v, strict, x);
    }
    forall x | x in b
      ensures x < |m| && !Under(cmp, m[x].data, v, strict)
    {
      var k :| 0 <= k < |b| && b[k] == x;
      assert !Under(cmp, Data(m, b)[k], v, strict);
    }
    hide Data, NoneUnder;
    EndsOr0(a);
    assert forall x :: x in a + b <==> x in a || x in b;
  }

  lemma {:induction false} CutFirst<T(!new)>(cmp: (T, T) -> int, m: seq<Node<T>>, a: seq<nat>, b: seq<nat>, v: T,
                                             strict: bool)
    requires TotalPreorder(cmp) && InArray(m, a + b) && InArray(m, a) && InArray(m, b) && 0 !in b
    requires Sorted(cmp, Data(m, b)) && AllUnder(cmp, Data(m, a), v, strict) && NoneUnder(cmp, Data(m, b), v, strict)
    ensures IsFirst(cmp, m, a + b, v, strict, FirstOr0(b))
  {
    hide TotalPreorder, Under, Sorted, NoneUnder, InArray, FirstOr0;
    forall x | x in b
      ensures FirstOr0(b) in b && FirstOr0(b) < |m|
      ensures x < |m| && !Under(cmp, m[x].data, v, strict) && cmp(m[FirstOr0(b)].data, m[x].data) <= 0
    {
      FirstNotUnder(cmp, m, b, v, strict, x);
    }
    forall x | x in a
      ensures x < |m| && Under(cmp, m[x].data, v, strict)
    {
      var k :| 0 <= k < |a| && a[k] == x;
      assert Under(cmp, Data(m, a)[k], v, strict);
    }
    hide Data, AllUnder;
    EndsOr0(b);
    assert forall x :: x in a + b <==> x in a || x in b;
  }

  /** A cut through the order names both neighbours of `v`. */
  lemma {:induction false} CutNeighbours<T(!new)>(cmp: (T, T) -> int, m: seq<Node<T>>, a: seq<nat>, b: seq<nat>, v: T,
        strict: bool)
    requires TotalPreorder(cmp) && InArray(m, a + b) && InArray(m, a) && InArray(m, b) && 0 !in a && 0 !in b
    requires Sorted(cmp, Data(m, a + b))
    requires AllUnder(cmp, Data(m, a), v, strict) && NoneUnder(cmp, Data(m, b), v, strict)
    ensures IsLast(cmp, m, a + b, v, strict, LastOr0(a))
    ensures IsFirst(cmp, m, a + b, v, strict, FirstOr0(b))
  {
    hide TotalPreorder, Sorted, Data, AllUnder, NoneUnder, InArray, IsLast, IsFirst;
    DataParts(m, a, b);
    SortedParts(cmp, Data(m, a), Data(m, b));
    CutLast(cmp, m, a, b, v, strict);
    CutFirst(cmp, m, a, b, v, strict);
  }

  // ------------------------------------------------------------------ the set it stands for

  ghost predicate Has<T>(cmp: (T, T) -> int, d: seq<T>, v: T) {
    exists k :: 0 <= k < |d| && cmp(d[k], v) == 0
  }

  /** A sorted sequence with `v` added: `v` goes before the first greater value. */
  ghost function Added<T>(cmp: (T, T) -> int, d: seq<T>, v: T): seq<T> {
    if d == [] then [v]
    else if cmp(d[0], v) == 0 then d
    else if cmp(d[0], v) > 0 then [v] + d
    else [d[0]] + Added(cmp, d[1..], v)
  }

  /** A sequence with the values equal to `v` taken away. */
  ghost function Removed<T>(cmp: (T, T) -> int, d: seq<T>, v: T): seq<T> {
    if d == [] then []
    else if cmp(d[0], v) == 0 then Removed(cmp, d[1..], v)
    else [d[0]] + Removed(cmp, d[1..], v)
  }

  /** Adding in front of everything greater. */
  lemma {:induction false} AddedAt<T(!new)>(cmp: (T, T) -> int, d: seq<T>, e: seq<T>, v: T)
    requires AllUnder(cmp, d, v, true) && NoneUnder(cmp, e, v, false)
    ensures Added(cmp, d + e, v) == d + [v] + e
    decreases d
  {
    if d == [] {
      assert d + e == e;
      if e != [] { assert !Under(cmp, e[0], v, false); }
    } else {
      assert Under(cmp, d[0], v, true);
      assert (d + e)[1..] == d[1..] + e;
      AddedAt(cmp, d[1..], e, v);
      assert [d[0]] + (d[1..] + [v] + e) == d + [v] + e;
    }
  }

  /** An equal value is already there. */
  lemma {:induction false} AddedHas<T(!new)>(cmp: (T, T) -> int, d: seq<T>, x: T, e: seq<T>, v: T)
    requires AllUnder(cmp, d, v, true) && cmp(x, v) == 0
    ensures Added(cmp, d + [x] + e, v) == d + [x] + e
    decreases d
  {
    var w := d + [x] + e;
    if d == [] {
      assert w[0] == x;
    } else {
      assert Under(cmp, d[0], v, true);
      assert w[0] == d[0] && w[1..] == d[1..] + [x] + e;
      AddedHas(cmp, d[1..], x, e, v);
      assert [d[0]] + (d[1..] + [x] + e) == w;
    }
  }

  /** Nothing equal, nothing removed. */
  lemma {:induction false} RemovedNone<T(!new)>(cmp: (T, T) -> int, d: seq<T>, v: T)
    requires forall k :: 0 <= k < |d| ==> cmp(d[k], v) != 0
    ensures Removed(cmp, d, v) == d
    decreases d
  {
    if d != [] {
      assert cmp(d[0], v) != 0;
      assert forall k :: 0 <= k < |d| - 1 ==> d[1..][k] == d[k + 1];
      RemovedNone(cmp, d[1..], v);
      assert [d[0]] + d[1..] == d;
    }
  }

  lemma {:induction false} RemovedParts<T(!new)>(cmp: (T, T) -> int, d: seq<T>, e: seq<T>, v: T)
    ensures Removed(cmp, d + e, v) == Removed(cmp, d, v) + Removed(cmp, e, v)
    decreases d
  {
    if d == [] {
      assert d + e == e;
    } else {
      assert (d + e)[1..] == d[1..] + e;
      RemovedParts(cmp, d[1..], e, v);
    }
  }

  /** Exactly the value at its place goes. */
  lemma {:induction false} RemovedAt<T(!new)>(cmp: (T, T) -> int, d: seq<T>, x: T, e: seq<T>, v: T)
    requires AllUnder(cmp, d, v, true) && NoneUnder(cmp, e, v, false) && cmp(x, v) == 0
    ensures Removed(cmp, d + [x] + e, v) == d + e
  {
    RemovedParts(cmp, d + [x], e, v);
    RemovedParts(cmp, d, [x], v);
    assert forall k :: 0 <= k < |d| ==> Under(cmp, d[k], v, true);
    assert forall k :: 0 <= k < |e| ==> !Under(cmp, e[k], v, false);
    RemovedNone(cmp, d, v);
    RemovedNone(cmp, e, v);
    assert Removed(cmp, [x], v) == Removed(cmp, [], v);
  }

  /** Membership after adding and after removing: the laws of a set. */
  lemma {:induction false} AddedLaw<T(!new)>(cmp: (T, T) -> int, d: seq<T>, v: T, x: T)
    requires TotalPreorder(cmp)
    ensures Has(cmp, Added(cmp, d, v), x) <==> Has(cmp, d, x) || cmp(v, x) == 0
    decreases d
  {
    hide TotalPreorder;
    if d == [] {
      assert Added(cmp, d, v)[0] == v;
    } else {
      HasParts(cmp, [d[0]], d[1..], x);
      assert [d[0]] + d[1..] == d;
      HasOne(cmp, d[0], x);
      if cmp(d[0], v) == 0 {
        Equal(cmp, d[0], v, x);
      } else if cmp(d[0], v) > 0 {
        HasParts(cmp, [v], d, x);
        HasOne(cmp, v, x);
      } else {
        AddedLaw(cmp, d[1..], v, x);
        HasParts(cmp, [d[0]], Added(cmp, d[1..], v), x);
      }
    }
  }

  lemma {:induction false} RemovedLaw<T(!new)>(cmp: (T, T) -> int, d: seq<T>, v: T, x: T)
    requires TotalPreorder(cmp)
    ensures Has(cmp, Removed(cmp, d, v), x) <==> Has(cmp, d, x) && cmp(v, x) != 0
    decreases d
  {
    hide TotalPreorder;
    if d != [] {
      HasParts(cmp, [d[0]], d[1..], x);
      assert [d[0]] + d[1..] == d;
      HasOne(cmp, d[0], x);
      RemovedLaw(cmp, d[1..], v, x);
      if cmp(d[0], v) == 0 {
        Equal(cmp, d[0], v, x);
      } else {
        HasParts(cmp, [d[0]], Removed(cmp, d[1..], v), x);
        if cmp(d[0], x) == 0 { Equal(cmp, d[0], x, v); }
        Mixed(cmp, v, x, x);
      }
    }
  }

  lemma {:induction false} Equal<T(!new)>(cmp: (T, T) -> int, d: T, v: T, x: T)
    requires TotalPreorder(cmp) && cmp(d, v) == 0
    ensures cmp(d, x) == 0 <==> cmp(v, x) == 0
  {
    hide TotalPreorder;
    Mixed(cmp, d, v, x);
    Mixed(cmp, v, d, x);
    Mixed(cmp, x, d, v);
    Mixed(cmp, x, v, d);
    Mixed(cmp, d, x, x);
    Mixed(cmp, v, x, x);
  }

  lemma {:induction false} HasOne<T>(cmp: (T, T) -> int, d: T, x: T)
    ensures Has(cmp, [d], x) <==> cmp(d, x) == 0
  {
    assert [d][0] == d;
  }

  lemma {:induction false} HasParts<T>(cmp: (T, T) -> int, d: seq<T>, e: seq<T>, x: T)
    ensures Has(cmp, d + e, x) <==> Has(cmp, d, x) || Has(cmp, e, x)
  {
    var u := d + e;
    if Has(cmp, d, x) {
      var k :| 0 <= k < |d| && cmp(d[k], x) == 0;
      assert u[k] == d[k];
    }
    if Has(cmp, e, x) {
      var k :| 0 <= k < |e| && cmp(e[k], x) == 0;
      assert u[|d| + k] == e[k];
    }
    if Has(cmp, u, x) {
      var k :| 0 <= k < |u| && cmp(u[k], x) == 0;
      if k >= |d| { assert u[k] == e[k - |d|]; }
    }
  }
}
