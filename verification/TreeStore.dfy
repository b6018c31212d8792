/** Slots entering, leaving and changing places in the node array of the tree set. */
module TreeStore {
  import opened Comparators
  import opened SlotLists
  import opened TreeShape
  import opened TreeRotate
  import opened TreeSteps
  import opened TreeBalance
  import opened TreeReplace
  import opened TreeOrder
  import opened TreeSpec

  /** Two arrays that agree on the links and balances of a tree. */
  lemma {:induction false} WholeFrame<T>(m: seq<Node<T>>, m': seq<Node<T>>, root: nat, w: Tree)
    requires Whole(m, root, w) && SameLinks(m, m', Idx(w)) && SameBalance(m, m', Idx(w))
    ensures Whole(m', root, w)
  {
    hide Idx, Links, Bal, SameLinks, SameBalance, NoDup;
    LinksFrame(m, m', w, root, 0);
    BalFrame(m, m', w);
  }

  /** A slot outside the tree may change in any way. */
  lemma {:induction false} WholeOutside<T>(m: seq<Node<T>>, m': seq<Node<T>>, root: nat, w: Tree, e: nat)
    requires Whole(m, root, w) && e !in Idx(w) && |m'| == |m|
    requires forall x :: 0 <= x < |m| && x != e ==> m'[x] == m[x]
    ensures Whole(m', root, w)
  {
    LinksRange(m, w, root, 0);
    hide Idx, Links, Bal, NoDup;
    WholeFrame(m, m', root, w);
  }

  // ------------------------------------------------------------------ a fresh slot

  function SetData<T>(m: seq<Node<T>>, i: nat, v: T): (r: seq<Node<T>>)
    requires i < |m|
    ensures |r| == |m|
  {
    m[i := m[i].(data := v)]
  }

  /** A value written to slot `next`, which is then claimed. */
  lemma {:induction false} GoodClaim<T(!new)>(cmp: (T, T) -> int, m: seq<Node<T>>, root: nat, count: nat, next: nat,
                                              capacity: nat,
                                              t: Tree, v: T)
    requires Good(cmp, m, root, count, next, capacity, t, next) && next < capacity
    ensures Good(cmp, SetData(m, next, v), root, count, next + 1, capacity, t, next)
    ensures Data(SetData(m, next, v), Idx(t)) == Data(m, Idx(t)) && next !in Idx(t)
  {
    hide Idx, Whole, Data, TotalPreorder;
    WholeSlots(m, root, t);
    DataSame(m, SetData(m, next, v), Idx(t));
    WholeSet(m, root, t, next, v);
  }

  lemma {:induction false} WholeSlots<T>(m: seq<Node<T>>, root: nat, t: Tree)
    requires Whole(m, root, t)
    ensures InRange(Idx(t), |m|) && NoDup(Idx(t))
  {
    LinksRange(m, t, root, 0);
  }

  lemma {:induction false} WholeSet<T>(m: seq<Node<T>>, root: nat, t: Tree, i: nat, v: T)
    requires Whole(m, root, t) && i < |m|
    ensures Whole(SetData(m, i, v), root, t)
  {
    WholeSlots(m, root, t);
    hide Idx, Whole;
    WholeFrame(m, SetData(m, i, v), root, t);
  }

  lemma {:induction false} CutClaim<T(!new)>(cmp: (T, T) -> int, m: seq<Node<T>>, c: Ctx, i: nat, v: T, u: T)
    requires Cut(cmp, m, c, u) && i < |m| && i !in Idx(Plug(c, Nil))
    ensures Cut(cmp, SetData(m, i, v), c, u)
  {
    IdxPlug(c, Nil);
    NotInParts(Before(c) + Idx(Nil), After(c), i);
    NotInParts(Before(c), Idx(Nil), i);
    hide Idx, Before, After, Plug, Data;
    DataSame(m, SetData(m, i, v), Before(c));
    DataSame(m, SetData(m, i, v), After(c));
  }

  /** An inactive slot below `next` may be in transit. */
  lemma {:induction false} GoodSkip<T(!new)>(cmp: (T, T) -> int, m: seq<Node<T>>, root: nat, count: nat, next: nat,
                                             capacity: nat,
                                             t: Tree, e: nat)
    requires Good(cmp, m, root, count, next, capacity, t, next) && e < next && e < |m| && !m[e].active
    ensures Good(cmp, m, root, count, next, capacity, t, e) && e !in Idx(t)
  {
    hide Idx, Whole, Ordered, TotalPreorder;
  }

  lemma {:induction false} GoodSearchable<T(!new)>(cmp: (T, T) -> int, m: seq<Node<T>>, root: nat, count: nat,
        next: nat, capacity: nat,
        t: Tree, e: nat)
    requires Good(cmp, m, root, count, next, capacity, t, e)
    ensures TotalPreorder(cmp) && Whole(m, root, t) && Ordered(cmp, m, Idx(t)) && InArray(m, Idx(t)) && e !in Idx(t)
    ensures 1 <= next <= next && (capacity > 0 ==> next <= capacity) && capacity == |m| && count == |Idx(t)|
  {
  }

  /** A value equal to one in the set adds nothing. */
  lemma {:induction false} AddedPresent<T(!new)>(cmp: (T, T) -> int, m: seq<Node<T>>, s: seq<nat>, i: nat, v: T)
    requires TotalPreorder(cmp) && Ordered(cmp, m, s) && i in s && i < |m| && cmp(m[i].data, v) == 0
    ensures Added(cmp, Data(m, s), v) == Data(m, s) && Has(cmp, Data(m, s), v)
  {
    var d := Data(m, s);
    var k :| 0 <= k < |s| && s[k] == i;
    assert d == d[..k] + [d[k]] + d[k + 1..];
    HasSlot(cmp, m, s, i, v);
    hide Data, TotalPreorder, Sorted;
    UnderAt(cmp, d[..k], d[k], d[k + 1..], v);
    AddedHas(cmp, d[..k], d[k], d[k + 1..], v);
  }

  /** Hanging a leaf activates its slot and keeps all values. */
  lemma {:induction false} LeafActivates<T>(m: seq<Node<T>>, root: nat, p: nat, e: nat, right: bool, m': seq<Node<T>>)
    requires p < |m| && e < |m| && SameData(WithLeaf(m, root, p, e, right).0, m')
    ensures Activated(m, m', e)
  {
    HungAt(m, root, p, e, right);
    hide Hung;
  }

  // ------------------------------------------------------------------ leaving slots

  lemma {:induction false} LeaveActive<T>(m: seq<Node<T>>, root: nat, w: Tree, m0: seq<Node<T>>, e: nat)
    requires Whole(m, root, w) && e !in Idx(w) && e < |m| && SameData(m0, m)
    ensures Whole(SetActive(m, e, false), root, w) && Deactivated(m0, SetActive(m, e, false), e)
  {
    hide Whole, Idx;
    WholeOutside(m, SetActive(m, e, false), root, w, e);
  }

  lemma {:induction false} StillActive<T>(m: seq<Node<T>>, e: nat)
    requires e < |m| && m[e].active
    ensures SetActive(m, e, true) == m
  {
  }

  /** Where the successor of a slot with two children stands. */
  lemma {:induction false} Successor(c: Ctx, l: Tree, i: nat, r: Tree, s: nat)
    requires r.Bin? && s == FirstOr0(Idx(r))
    ensures Idx(r) != [] && s == Idx(r)[0]
    ensures var x, y := Before(c) + Idx(l), Idx(r)[1..] + After(c);
            Idx(Plug(c, Bin(l, i, r))) == x + [i] + ([s] + y) && s in Idx(Plug(c, Bin(l, i, r)))
  {
    BinNonEmpty(r);
    IdxPlug(c, Bin(l, i, r));
    DataAssoc(Before(c), Idx(l), [i], Idx(r), After(c));
    assert Idx(Plug(c, Bin(l, i, r))) == (Before(c) + Idx(l)) + [i] + (Idx(r) + After(c));
    hide Idx, Before, After, Plug;
    assert Idx(r) == [s] + Idx(r)[1..];
    assert Idx(r) + After(c) == [s] + (Idx(r)[1..] + After(c));
    assert s in [s] + (Idx(r)[1..] + After(c));
  }

  /** The successor, unlinked, takes over the place of slot `i`. */
  lemma {:induction false} SuccessorTakes(x: seq<nat>, i: nat, s: nat, y: seq<nat>, a: seq<nat>, b: seq<nat>)
    requires NoDup(x + [i] + ([s] + y)) && x + [i] + ([s] + y) == a + [s] + b
    ensures a + b == x + [i] + y && s !in a + b && NoDup(x + [i] + y)
  {
    assert x + [i] + ([s] + y) == (x + [i]) + [s] + y;
    SplitUnique(x + [i], y, a, b, s);
    NoDupWithout(x + [i], y, s);
  }

  lemma {:induction false} TakenOrder(c: Ctx, l: Tree, i: nat, r: Tree, s: nat, x: seq<nat>, y: seq<nat>)
    requires Idx(Plug(c, Bin(l, i, r))) == x + [i] + y && NoDup(x + [i] + y)
    ensures Idx(Plug(c, Bin(l, s, r))) == x + [s] + y
  {
    IdxPlug(c, Bin(l, i, r));
    IdxPlug(c, Bin(l, s, r));
    DataAssoc(Before(c), Idx(l), [i], Idx(r), After(c));
    DataAssoc(Before(c), Idx(l), [s], Idx(r), After(c));
    assert Idx(Plug(c, Bin(l, i, r))) == (Before(c) + Idx(l)) + [i] + (Idx(r) + After(c));
    assert Idx(Plug(c, Bin(l, s, r))) == (Before(c) + Idx(l)) + [s] + (Idx(r) + After(c));
    hide Idx, Before, After, Plug, NoDup;
    SplitUnique(x, y, Before(c) + Idx(l), Idx(r) + After(c), i);
  }

  // ------------------------------------------------------------------ moving, resizing

  /** One step of compaction: slot `j` moves to the free slot `i`. */
  lemma {:induction false} MoveSlot<T(!new)>(cmp: (T, T) -> int, m: seq<Node<T>>, root: nat, count: nat, next: nat,
                                             capacity: nat,
                                             w: Tree, j: nat, i: nat)
    returns (w': Tree)
    requires Good(cmp, m, root, count, next, capacity, w, next) && j in Idx(w) && 0 < i < next && i < |m|
        && !m[i].active
    ensures j < |m| && m[j].parent < |m| && i !in Idx(w)
    ensures var m1 := SetData(m, i, m[j].data);
            && Handed(m1, j, i, m1[j].parent) && LinkedFrom(m1, root, m1[j].parent, j)
            && (var r := Replaced(m1, root, m1[j].parent, j, i, true);
                var m2 := SetActive(SetActive(r.0, i, true), j, false);
                && Good(cmp, m2, r.1, count, next, capacity, w', next)
                && Data(m2, Idx(w')) == Data(m, Idx(w)) && Shape(w') == Shape(w)
                && Moved(m, m2, j, i))
  {
    hide Idx, Whole, Ordered, Data, Shape, TotalPreorder, Replaced, Links, CtxLinks, Plug, Before, After, NoDup;
    WholeSlots(m, root, w);
    var m1 := SetData(m, i, m[j].data);
    WholeSet(m, root, w, i, m[j].data);
    var c, t := FocusWhole(m1, root, w, j);
    TakePlace(m1, root, c, t.l, j, t.r, i);
    var r := Replaced(m1, root, m1[j].parent, j, i, true);
    var m2 := SetActive(SetActive(r.0, i, true), j, false);
    w' := Plug(c, Bin(t.l, i, t.r));
    Vacated(c, t.l, j, t.r, i);
    WholeOutside(SetActive(r.0, i, true), m2, r.1, w', j);
    GoodMoved(cmp, m, root, count, next, capacity, c, t.l, j, t.r, i, m2, r.1);
  }

  /** The slot moved away from is no longer in the tree. */
  lemma {:induction false} Vacated(c: Ctx, l: Tree, j: nat, r: Tree, i: nat)
    requires NoDup(Idx(Plug(c, Bin(l, j, r)))) && i != j
    ensures j !in Idx(Plug(c, Bin(l, i, r)))
  {
    ApartParts(c, l, j, r);
    OutsideParts(c, l, i, r, j);
  }

  lemma {:induction false} FocusWhole<T>(m: seq<Node<T>>, root: nat, w: Tree, i: nat) returns (c: Ctx, t: Tree)
    requires Whole(m, root, w) && i in Idx(w)
    ensures Plug(c, t) == w && t.Bin? && t.i == i && 0 < i < |m| && m[i].parent == Above(c) < |m|
        && LinkedFrom(m, root, Above(c), i)
    ensures Focused(m, w, c, t, i)
  {
    hide Idx, Links, CtxLinks, Plug, Bal, NoDup;
    c, t := FocusSlot(m, root, w, i);
    FocusedPlug(m, w, c, t, i);
    GoDown(m, w, c, t, i);
    GoUp(m, root, w, c, t, i);
    CtxLinked(m, c, i, root);
  }

  /** All slots from 1 up to, not including, `i` are active. */
  predicate FilledTo<T>(m: seq<Node<T>>, i: nat) { forall x: nat :: 1 <= x < i ==> x < |m| && m[x].active }

  /** No slot of `s` lies beyond `j`. */
  ghost predicate NoneBeyond(s: seq<nat>, j: nat) { forall x :: x in s ==> x <= j }

  /** Compaction done: the free slots begin right after the count. */
  lemma {:induction false} GoodCompact<T(!new)>(cmp: (T, T) -> int, m: seq<Node<T>>, root: nat, count: nat, next: nat,
                                                capacity: nat,
                                                w: Tree)
    requires Good(cmp, m, root, count, next, capacity, w, next) && count + 1 <= next <= |m|
    requires FilledTo(m, count + 1)
    ensures Good(cmp, m, root, count, count + 1, capacity, w, count + 1)
  {
    hide Idx, Whole, Ordered, TotalPreorder;
    WholeSlots(m, root, w);
    Compact(Idx(w));
  }

  /** A larger or smaller array with the same used slots. */
  lemma {:induction false} GoodResized<T(!new)>(cmp: (T, T) -> int, m: seq<Node<T>>, root: nat, count: nat, next: nat,
                                                capacity: nat,
                                                w: Tree, m': seq<Node<T>>)
    requires Good(cmp, m, root, count, next, capacity, w, next) && 16 <= |m'| && next <= |m'|
    requires forall x :: 0 < x < next && x < |m| ==> m'[x] == m[x]
    requires !m'[0].active && (capacity == 0 ==> next == 1)
    ensures Good(cmp, m', root, count, next, |m'|, w, next) && Data(m', Idx(w)) == Data(m, Idx(w))
  {
    hide Idx, Whole, Data, TotalPreorder, NoDup;
    WholeSlots(m, root, w);
    WholeFrame(m, m', root, w);
    DataResized(m, m', Idx(w));
  }

  lemma {:induction false} DataResized<T>(m: seq<Node<T>>, m': seq<Node<T>>, s: seq<nat>)
    requires InArray(m, s) && forall x :: x in s ==> x < |m'| && x < |m| && m'[x] == m[x]
    ensures InArray(m', s) && Data(m', s) == Data(m, s)
  {
    assert forall k :: 0 <= k < |s| ==> s[k] in s;
  }

  /** An active slot below `next` belongs to the tree. */
  lemma {:induction false} ActiveIn<T(!new)>(cmp: (T, T) -> int, m: seq<Node<T>>, root: nat, count: nat, next: nat,
                                             capacity: nat, w: Tree)
    requires Good(cmp, m, root, count, next, capacity, w, next)
    ensures forall x: nat :: x < next && x < |m| ==> (m[x].active <==> x in Idx(w))
    ensures forall x :: x in Idx(w) ==> 0 < x < next && x < |m|
    ensures NoDup(Idx(w)) && count == |Idx(w)|
  {
    WholeSlots(m, root, w);
  }

  lemma {:induction false} EmptyHole<T(!new)>(cmp: (T, T) -> int, m: seq<Node<T>>, root: nat, w: Tree, v: T)
    requires Whole(m, root, w)
    ensures root == 0 ==> w == Plug(Top, Nil) && Above(Top) == 0 && !Top.InRight? && Cut(cmp, m, Top, v)
    ensures root == 0 <==> w.Nil?
  {
    LinksRoot(m, w, root, 0);
  }

  /** A slot of the tree is active, and stays so where activity is kept. */
  lemma {:induction false} WholeActive<T>(m: seq<Node<T>>, e: nat, root: nat, w: Tree, m': seq<Node<T>>)
    requires Whole(m, root, w) && e in Idx(w) && SameData(m, m')
    ensures 0 < e < |m'| && m'[e].active
  {
    LinksActive(m, w, root, 0);
  }

  lemma {:induction false} NotInWithout<T>(m: seq<Node<T>>, root: nat, w: Tree, s: seq<nat>, e: nat, s': seq<nat>)
    requires Whole(m, root, w) && Idx(w) == s + [e] + s'
    ensures e !in s + s'
  {
    NoDupWithout(s, s', e);
  }

  /** Removing an equal value is removing the value itself. */
  lemma {:induction false} RemovedEqual<T(!new)>(cmp: (T, T) -> int, d: seq<T>, x: T, v: T)
    requires TotalPreorder(cmp) && cmp(x, v) == 0
    ensures Removed(cmp, d, x) == Removed(cmp, d, v)
    decreases d
  {
    hide TotalPreorder;
    if d != [] {
      Mixed(cmp, d[0], x, v);
      Mixed(cmp, x, v, v);
      Mixed(cmp, d[0], v, x);
      EqualTo(cmp, d[0], x, v);
      RemovedEqual(cmp, d[1..], x, v);
    }
  }

  lemma {:induction false} EqualTo<T(!new)>(cmp: (T, T) -> int, d: T, x: T, v: T)
    requires TotalPreorder(cmp) && cmp(x, v) == 0
    ensures cmp(d, x) == 0 <==> cmp(d, v) == 0
  {
    hide TotalPreorder;
    Equal(cmp, x, v, d);
    Mixed(cmp, d, x, d);
    Mixed(cmp, d, v, d);
  }

  lemma {:induction false} RemovedAbsent<T(!new)>(cmp: (T, T) -> int, d: seq<T>, v: T)
    requires !Has(cmp, d, v)
    ensures Removed(cmp, d, v) == d
  {
    RemovedNone(cmp, d, v);
  }

  lemma {:induction false} GoodNext<T(!new)>(cmp: (T, T) -> int, m: seq<Node<T>>, root: nat, count: nat, next: nat,
                                             capacity: nat, w: Tree)
    requires Good(cmp, m, root, count, next, capacity, w, next)
    ensures count + 1 <= next && (next > 1 ==> next <= |m|)
  {
    WholeSlots(m, root, w);
    UpToSlots(next - 1);
    SubsetSize(Idx(w), UpTo(next - 1));
  }

  /** A move fills slot `i` and leaves nothing beyond slot `j`. */
  lemma {:induction false} MovedUp<T(!new)>(cmp: (T, T) -> int, m: seq<Node<T>>, root: nat, count: nat, next: nat,
                                            capacity: nat, w: Tree,
                                            m': seq<Node<T>>, root': nat, w': Tree, j: nat, i: nat)
    requires Good(cmp, m, root, count, next, capacity, w, next) && Good(cmp, m', root', count, next, capacity, w', next)
    requires i < j < |m| && j < next && Moved(m, m', j, i)
    ensures |m'| == |m| && m'[i].active
    ensures NoneBeyond(Idx(w), j) ==> NoneBeyond(Idx(w'), j)
    ensures FilledTo(m, i) ==> FilledTo(m', i)
  {
    hide Good, Idx;
    ActiveIn(cmp, m, root, count, next, capacity, w);
    ActiveIn(cmp, m', root', count, next, capacity, w');
  }

  lemma {:induction false} EmptyAbove<T>(m: seq<Node<T>>, root: nat, w: Tree, c: Ctx)
    requires Whole(m, root, w) && w == Plug(c, Nil)
    ensures root == 0 <==> c.Top?
    ensures Above(c) == 0 <==> c.Top?
  {
    PlugLinks(m, c, Nil, root);
    CtxRootSet(m, c, 0, root);
  }

  lemma {:induction false} Reflexive<T(!new)>(cmp: (T, T) -> int, v: T)
    requires TotalPreorder(cmp)
    ensures cmp(v, v) == 0
  {
    Mixed(cmp, v, v, v);
  }

  lemma {:induction false} ActivatedData<T>(m: seq<Node<T>>, m': seq<Node<T>>, e: nat)
    requires Activated(m, m', e) && e < |m|
    ensures |m'| == |m| && m'[e].data == m[e].data
  {
  }

  lemma {:induction false} EmptyWhole<T(!new)>(cmp: (T, T) -> int, m: seq<Node<T>>)
    ensures Whole(m, 0, Nil) && Ordered(cmp, m, Idx(Nil)) && Idx(Nil) == [] && Data(m, Idx(Nil)) == []
  {
  }

  lemma {:induction false} RootEmpty<T>(m: seq<Node<T>>, root: nat, w: Tree)
    requires Whole(m, root, w)
    ensures root == 0 <==> Idx(w) == []
  {
    BinNonEmpty(w);
    LinksRoot(m, w, root, 0);
  }

  /** The order of the slots and their values. */
  lemma {:induction false} GoodOrder<T(!new)>(cmp: (T, T) -> int, m: seq<Node<T>>, root: nat, count: nat, next: nat,
                                              capacity: nat,
                                              w: Tree)
    requires Good(cmp, m, root, count, next, capacity, w, next)
    ensures NoDup(Idx(w)) && |Idx(w)| == count
    ensures forall k :: 0 <= k < count ==> 0 < Idx(w)[k] < |m|
    ensures forall j, k :: 0 <= j < k < count ==> cmp(m[Idx(w)[j]].data, m[Idx(w)[k]].data) < 0
  {
    var s := Idx(w);
    WholeSlots(m, root, w);
    hide Whole, Idx, TotalPreorder, NoDup;
    assert forall k :: 0 <= k < count ==> s[k] in s;
    assert forall k :: 0 <= k < count ==> Data(m, s)[k] == m[s[k]].data;
  }
}
