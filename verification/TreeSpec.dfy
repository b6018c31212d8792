/** The invariant of the tree set and what each of its operations does to it. */
module TreeSpec {
  import opened Comparators
  import opened SlotLists
  import opened TreeShape
  import opened TreeRotate
  import opened TreeBalance
  import opened TreeGrow
  import opened TreeOrder

  // ------------------------------------------------------------------ the invariant

  /** The slots in `s` hold strictly ascending values. */
  ghost predicate Ordered<T>(cmp: (T, T) -> int, m: seq<Node<T>>, s: seq<nat>) {
    InArray(m, s) && Sorted(cmp, Data(m, s))
  }

  /** Below `next`, the active slots are those of the tree; slot `skip` is in transit. */
  ghost predicate Slots<T>(m: seq<Node<T>>, next: nat, s: seq<nat>, skip: nat) {
    && (forall x: nat :: x < |m| && x < next && x != skip ==> (m[x].active <==> x in s))
    && (forall x :: x in s ==> 0 < x < next && x < |m| && x != skip)
  }

  ghost predicate Sizes<T>(m: seq<Node<T>>, count: nat, next: nat, capacity: nat, s: seq<nat>) {
    && count == |s| && capacity == |m| && 1 <= next
    && (if capacity == 0 then next == 1 else 16 <= capacity && next <= capacity)
  }

  ghost predicate Good<T(!new)>(cmp: (T, T) -> int, m: seq<Node<T>>, root: nat, count: nat, next: nat, capacity: nat,
                                t: Tree, skip: nat) {
    && TotalPreorder(cmp) && Whole(m, root, t) && Ordered(cmp, m, Idx(t))
    && Slots(m, next, Idx(t), skip) && Sizes(m, count, next, capacity, Idx(t))
  }

  // ------------------------------------------------------------------ hanging in a new leaf

  /** The link from above to a new slot in an empty hole. */
  function Hung<T>(m: seq<Node<T>>, root: nat, parent: nat, e: nat, right: bool): (r: (seq<Node<T>>, nat))
    requires parent < |m|
    ensures |r.0| == |m|
  {
    if root == 0 then (m, e) else (SetFar(m, right, parent, e), root)
  }

  function Leaf<T>(m: seq<Node<T>>, e: nat, parent: nat): (r: seq<Node<T>>)
    requires e < |m|
    ensures |r| == |m|
  {
    m[e := Node(true, 0, parent, 0, 0, m[e].data)]
  }

  lemma {:induction false} CtxHung<T>(m: seq<Node<T>>, c: Ctx, root: nat, e: nat)
    requires CtxLinks(m, c, 0, root) && Above(c) < |m|
    requires NoDup(Before(c)) && NoDup(After(c)) && Disjoint(Before(c), After(c))
    ensures var h := Hung(m, root, Above(c), e, c.InRight?);
            CtxLinks(h.0, c, e, h.1)
    ensures root == 0 <==> c.Top?
  {
    CtxRootSet(m, c, 0, root);
    var h := Hung(m, root, Above(c), e, c.InRight?);
    match c
    case Top =>
    case InLeft(up, g, t) =>
      CtxParts(c);
      hide Idx, Before, After;
      KeepLinks(m, h.0, g, Idx(t));
      KeepLinks(m, h.0, g, Before(up));
      KeepLinks(m, h.0, g, After(up));
      LinksRange(m, t, m[g].right, g);
      LinksFrame(m, h.0, t, m[g].right, g);
      CtxRange(m, up, g, root);
      CtxLinksFrame(m, h.0, up, g, root);
    case InRight(up, t, g) =>
      CtxParts(c);
      hide Idx, Before, After;
      KeepLinks(m, h.0, g, Idx(t));
      KeepLinks(m, h.0, g, Before(up));
      KeepLinks(m, h.0, g, After(up));
      LinksRange(m, t, m[g].left, g);
      LinksFrame(m, h.0, t, m[g].left, g);
      CtxRange(m, up, g, root);
      CtxLinksFrame(m, h.0, up, g, root);
  }

  lemma {:induction false} CtxRootSet<T>(m: seq<Node<T>>, c: Ctx, i: nat, root: nat)
    requires CtxLinks(m, c, i, root)
    ensures c.Top? || root != 0
    ensures c.Top? ==> root == i
    decreases c
  {
    match c
    case Top =>
    case InLeft(up, j, r) => CtxRootSet(m, up, j, root);
    case InRight(up, l, j) => CtxRootSet(m, up, j, root);
  }

  /** The array once slot `e` hangs in the hole as a leaf. */
  function WithLeaf<T>(m: seq<Node<T>>, root: nat, parent: nat, e: nat, right: bool): (r: (seq<Node<T>>, nat))
    requires parent < |m| && e < |m|
    ensures |r.0| == |m|
  {
    var h := Hung(m, root, parent, e, right);
    (Leaf(h.0, e, parent), h.1)
  }

  lemma {:induction false} HangLeaf<T>(m: seq<Node<T>>, root: nat, c: Ctx, e: nat)
    requires Whole(m, root, Plug(c, Nil)) && 0 < e < |m| && e !in Idx(Plug(c, Nil))
    ensures Above(c) < |m| && (root == 0 <==> c.Top?)
    ensures var h := WithLeaf(m, root, Above(c), e, c.InRight?); Grown(h.0, h.1, c, Bin(Nil, e, Nil))
    ensures Idx(Plug(c, Bin(Nil, e, Nil))) == Before(c) + [e] + After(c)
  {
    hide Plug, Links, CtxLinks, NoDup, Idx, Bal, CtxBal, Before, After, Hung, Above;
    PlugLinks(m, c, Nil, root);
    CtxRange(m, c, 0, root);
    BalPlug(m, c, Nil);
    NoDupPlug(c, Nil);
    IdxPlug(c, Nil);
    CtxHung(m, c, root, e);
    var h := Hung(m, root, Above(c), e, c.InRight?);
    HungAt(m, root, Above(c), e, c.InRight?);
    var f := Leaf(h.0, e, Above(c));
    LeafFrame(m, h.0, f, h.1, c, e);
    LeafIdx(c, e);
    LeafLinks(f, e, Above(c));
    LinksPlug(f, c, Bin(Nil, e, Nil), e, h.1);
    GrowStart(f, h.1, c, e);
  }

  lemma {:induction false} HungAt<T>(m: seq<Node<T>>, root: nat, p: nat, e: nat, right: bool)
    requires p < |m|
    ensures var h := Hung(m, root, p, e, right).0;
            SameData(m, h) && forall z :: 0 <= z < |m| ==> h[z].balance == m[z].balance
  {
  }

  lemma {:induction false} LeafFrame<T>(m: seq<Node<T>>, h: seq<Node<T>>, f: seq<Node<T>>, root: nat, c: Ctx, e: nat)
    requires |m| == |h| && e < |m| && f == Leaf(h, e, Above(c)) && CtxLinks(h, c, e, root) && CtxBal(m, c, 0)
    requires InRange(Before(c), |m|) && InRange(After(c), |m|) && e !in Before(c) && e !in After(c)
    requires forall z :: 0 <= z < |m| ==> h[z].balance == m[z].balance
    ensures CtxLinks(f, c, e, root) && CtxBal(f, c, 0)
  {
    hide CtxLinks, CtxBal, Before, After, Above;
    assert SameLinks(h, f, Before(c)) && SameLinks(h, f, After(c));
    CtxLinksFrame(h, f, c, e, root);
    assert SameBalance(m, f, Before(c)) && SameBalance(m, f, After(c));
    CtxBalFrame(m, f, c, 0);
  }

  lemma {:induction false} LeafIdx(c: Ctx, e: nat)
    requires NoDup(Before(c)) && NoDup(After(c)) && Disjoint(Before(c), After(c)) && e !in Before(c) && e !in After(c)
    ensures Idx(Plug(c, Bin(Nil, e, Nil))) == Before(c) + [e] + After(c)
    ensures NoDup(Idx(Plug(c, Bin(Nil, e, Nil))))
  {
    IdxPlug(c, Bin(Nil, e, Nil));
    assert Idx(Bin(Nil, e, Nil)) == [e];
    NoDupParts(Before(c) + [e], After(c));
    NoDupParts(Before(c), [e]);
  }

  lemma {:induction false} LeafLinks<T>(f: seq<Node<T>>, e: nat, p: nat)
    requires 0 < e < |f| && f[e].active && f[e].parent == p && f[e].left == 0 && f[e].right == 0
    ensures Links(f, Bin(Nil, e, Nil), e, p)
  {
  }

  // ------------------------------------------------------------------ what insertion does

  /** Values are kept; slot `e` becomes active. */
  ghost predicate Activated<T>(m: seq<Node<T>>, r: seq<Node<T>>, e: nat) {
    |r| == |m| && forall x :: 0 <= x < |m| ==> r[x].data == m[x].data && r[x].active == (x == e || m[x].active)
  }

  /** Values are kept; slot `e` becomes inactive. */
  ghost predicate Deactivated<T>(m: seq<Node<T>>, r: seq<Node<T>>, e: nat) {
    |r| == |m| && forall x :: 0 <= x < |m| ==> r[x].data == m[x].data && r[x].active == (x != e && m[x].active)
  }

  lemma {:induction false} DataKept<T>(m: seq<Node<T>>, r: seq<Node<T>>, s: seq<nat>)
    requires InArray(m, s) && |r| == |m| && forall x :: 0 <= x < |m| ==> r[x].data == m[x].data
    ensures InArray(r, s) && Data(r, s) == Data(m, s)
  {
    DataSame(m, r, s);
  }

  /** The values around an inserted one. */
  lemma {:induction false} InsertedData<T(!new)>(cmp: (T, T) -> int, m: seq<Node<T>>, c: Ctx, e: nat)
    requires TotalPreorder(cmp) && Ordered(cmp, m, Idx(Plug(c, Nil))) && e < |m| && Cut(cmp, m, c, m[e].data)
    ensures InArray(m, Before(c) + [e] + After(c))
    ensures Data(m, Before(c) + [e] + After(c)) == Added(cmp, Data(m, Idx(Plug(c, Nil))), m[e].data)
    ensures Sorted(cmp, Data(m, Before(c) + [e] + After(c)))
  {
    var b, a, v := Before(c), After(c), m[e].data;
    IdxPlug(c, Nil);
    assert Idx(Plug(c, Nil)) == b + a;
    hide Plug, Idx, Before, After, InArray, Added, Sorted, Data, TotalPreorder;
    DataParts(m, b, a);
    DataParts(m, b + [e], a);
    DataParts(m, b, [e]);
    DataOne(m, e);
    AddedAt(cmp, Data(m, b), Data(m, a), v);
    SortedAround(cmp, Data(m, b), v, Data(m, a));
  }

  lemma {:induction false} SortedAround<T(!new)>(cmp: (T, T) -> int, d: seq<T>, v: T, e: seq<T>)
    requires TotalPreorder(cmp) && Sorted(cmp, d + e) && AllUnder(cmp, d, v, true) && NoneUnder(cmp, e, v, false)
    ensures Sorted(cmp, d + [v] + e)
  {
    hide TotalPreorder;
    SortedParts(cmp, d, e);
    SortedParts(cmp, d + [v], e);
    SortedParts(cmp, d, [v]);
    assert forall k :: 0 <= k < |d| ==> Under(cmp, d[k], v, true);
    forall k | 0 <= k < |e|
      ensures cmp(v, e[k]) < 0
    {
      assert !Under(cmp, e[k], v, false);
      Mixed(cmp, v, e[k], v);
    }
    var u := d + [v];
    assert forall i :: 0 <= i < |u| ==> if i < |d| then u[i] == d[i] else u[i] == v;
  }

  /** After insertion the tree set stands for the old values with the new one added. */
  lemma {:induction false} GoodInserted<T(!new)>(cmp: (T, T) -> int, m: seq<Node<T>>, root: nat, count: nat,
                                                 next: nat, capacity: nat,
                                                 c: Ctx, e: nat,
                                                 m': seq<Node<T>>, root': nat, w: Tree)
    requires Good(cmp, m, root, count, next, capacity, Plug(c, Nil), e) && 0 < e < next && e < |m|
    requires Cut(cmp, m, c, m[e].data)
    requires Whole(m', root', w) && Idx(w) == Before(c) + [e] + After(c) && Activated(m, m', e)
    ensures Good(cmp, m', root', count + 1, next, capacity, w, next)
    ensures Data(m', Idx(w)) == Added(cmp, Data(m, Idx(Plug(c, Nil))), m[e].data)
  {
    hide Plug, Whole, Data, TotalPreorder, Sorted, Added, Cut, InArray;
    InsertedData(cmp, m, c, e);
    DataKept(m, m', Idx(w));
    IdxPlug(c, Nil);
    assert Idx(Plug(c, Nil)) == Before(c) + After(c);
    hide Idx, Before, After, Ordered, Slots, Activated;
    SlotsInserted(m, m', next, Before(c), e, After(c));
  }

  lemma {:induction false} SlotsInserted<T>(m: seq<Node<T>>, m': seq<Node<T>>, next: nat, b: seq<nat>, e: nat,
                                            a: seq<nat>)
    requires Slots(m, next, b + a, e) && Activated(m, m', e) && 0 < e < next && e < |m|
    ensures Slots(m', next, b + [e] + a, next)
  {
    assert forall x :: x in b + [e] + a <==> x == e || x in b + a;
  }

  // ------------------------------------------------------------------ what removal does

  /** After removal the tree set stands for the old values without that of slot `e`. */
  lemma {:induction false} GoodRemoved<T(!new)>(cmp: (T, T) -> int, m: seq<Node<T>>, root: nat, count: nat, next: nat,
                                                capacity: nat,
                                                t: Tree,
                                                s: seq<nat>, e: nat, s': seq<nat>, m': seq<Node<T>>, root': nat,
                                                w: Tree)
    requires Good(cmp, m, root, count, next, capacity, t, next) && Idx(t) == s + [e] + s'
    requires Whole(m', root', w) && Idx(w) == s + s' && Deactivated(m, m', e)
    ensures count > 0 && e < |m| && Good(cmp, m', root', count - 1, next, capacity, w, next)
    ensures Data(m', Idx(w)) == Removed(cmp, Data(m, Idx(t)), m[e].data)
  {
    assert NoDup(s + [e] + s');
    hide Whole, Data, TotalPreorder, Sorted, Removed, InArray, Idx, Slots;
    DataParts(m, s + [e], s');
    DataParts(m, s, [e]);
    DataParts(m, s, s');
    OneIn(m, e);
    DataOne(m, e);
    var d, d' := Data(m, s), Data(m, s');
    RemovedData(cmp, d, m[e].data, d');
    DataKept(m, m', s + s');
    SlotsRemoved(m, m', next, s, e, s');
  }

  lemma {:induction false} RemovedData<T(!new)>(cmp: (T, T) -> int, d: seq<T>, v: T, d': seq<T>)
    requires TotalPreorder(cmp) && Sorted(cmp, d + [v] + d')
    ensures Sorted(cmp, d + d') && Removed(cmp, d + [v] + d', v) == d + d'
  {
    hide TotalPreorder;
    Mixed(cmp, v, v, v);
    UnderAt(cmp, d, v, d', v);
    RemovedAt(cmp, d, v, d', v);
    SortedParts(cmp, d + [v], d');
    SortedParts(cmp, d, [v]);
    SortedParts(cmp, d, d');
    assert forall k :: 0 <= k < |d| ==> (d + [v])[k] == d[k];
  }

  lemma {:induction false} SlotsRemoved<T>(m: seq<Node<T>>, m': seq<Node<T>>, next: nat, b: seq<nat>, e: nat,
                                           a: seq<nat>)
    requires Slots(m, next, b + [e] + a, next) && Deactivated(m, m', e) && NoDup(b + [e] + a)
    ensures Slots(m', next, b + a, next)
  {
    NoDupWithout(b, a, e);
    assert forall x :: x in b + [e] + a <==> x == e || x in b + a;
  }

  // ------------------------------------------------------------------ what compaction does

  /** The shape of a tree, whatever the slots. */
  function Shape(t: Tree): Tree {
    match t
    case Nil => Nil
    case Bin(l, _, r) => Bin(Shape(l), 0, Shape(r))
  }

  lemma {:induction false} ShapePlug(c: Ctx, t: Tree, t': Tree)
    requires Shape(t) == Shape(t')
    ensures Shape(Plug(c, t)) == Shape(Plug(c, t'))
    decreases c
  {
    match c
    case Top =>
    case InLeft(up, i, r) => ShapePlug(up, Bin(t, i, r), Bin(t', i, r));
    case InRight(up, l, i) => ShapePlug(up, Bin(l, i, t), Bin(l, i, t'));
  }

  /** The value of slot `j` has moved to slot `i`, which has become active in its place. */
  ghost predicate Moved<T>(m: seq<Node<T>>, r: seq<Node<T>>, j: nat, i: nat)
    requires j < |m|
  {
    |r| == |m| && forall x :: 0 <= x < |m| ==>
      r[x].data == (if x == i then m[j].data else m[x].data)
      && r[x].active == (x == i || (x != j && m[x].active))
  }

  /** A move keeps the shape and the sequence of values. */
  lemma {:induction false} GoodMoved<T(!new)>(cmp: (T, T) -> int, m: seq<Node<T>>, root: nat, count: nat, next: nat,
                                              capacity: nat,
                                              c: Ctx, l: Tree, j: nat, r: Tree, i: nat, m': seq<Node<T>>, root': nat)
    requires Good(cmp, m, root, count, next, capacity, Plug(c, Bin(l, j, r)), next) && 0 < i < next && i < |m|
        && !m[i].active
    requires j < |m| && Whole(m', root', Plug(c, Bin(l, i, r))) && Moved(m, m', j, i)
    ensures Good(cmp, m', root', count, next, capacity, Plug(c, Bin(l, i, r)), next)
    ensures Data(m', Idx(Plug(c, Bin(l, i, r)))) == Data(m, Idx(Plug(c, Bin(l, j, r))))
    ensures Shape(Plug(c, Bin(l, i, r))) == Shape(Plug(c, Bin(l, j, r)))
  {
    ShapePlug(c, Bin(l, i, r), Bin(l, j, r));
    IdxPlug(c, Bin(l, i, r));
    IdxPlug(c, Bin(l, j, r));
    DataAssoc(Before(c), Idx(l), [i], Idx(r), After(c));
    DataAssoc(Before(c), Idx(l), [j], Idx(r), After(c));
    hide Plug, Whole, Data, TotalPreorder, Sorted, InArray, Idx, Shape, Slots, Before, After, NoDup;
    var b, a := Before(c) + Idx(l), Idx(r) + After(c);
    SlotsMoved(m, m', next, b, j, a, i);
    DataMoved(m, m', b, j, a, i);
  }

  lemma {:induction false} SlotsMoved<T>(m: seq<Node<T>>, m': seq<Node<T>>, next: nat, b: seq<nat>, j: nat,
                                         a: seq<nat>, i: nat)
    requires Slots(m, next, b + [j] + a, next) && j < |m| && Moved(m, m', j, i) && 0 < i < next && i < |m|
        && !m[i].active
    requires NoDup(b + [j] + a)
    ensures Slots(m', next, b + [i] + a, next)
    ensures i !in b && i !in a && j !in b && j !in a
  {
    NoDupWithout(b, a, j);
    assert forall x :: x in b + [j] + a <==> x == j || x in b + a;
    assert forall x :: x in b + [i] + a <==> x == i || x in b + a;
    assert forall x :: x in b + a <==> x in b || x in a;
  }

  lemma {:induction false} DataMoved<T>(m: seq<Node<T>>, m': seq<Node<T>>, b: seq<nat>, j: nat, a: seq<nat>, i: nat)
    requires InArray(m, b + [j] + a) && j < |m| && i < |m| && Moved(m, m', j, i)
    requires i !in b && i !in a && j !in b && j !in a
    ensures InArray(m', b + [i] + a) && Data(m', b + [i] + a) == Data(m, b + [j] + a)
  {
    hide InArray, Data;
    DataParts(m, b + [j], a);
    DataParts(m, b, [j]);
    DataOne(m, j);
    DataParts(m', b + [i], a);
    DataParts(m', b, [i]);
    DataOne(m', i);
    DataMoved1(m, m', b, j, i);
    DataMoved1(m, m', a, j, i);
  }

  lemma {:induction false} DataMoved1<T>(m: seq<Node<T>>, m': seq<Node<T>>, b: seq<nat>, j: nat, i: nat)
    requires InArray(m, b) && j < |m| && Moved(m, m', j, i) && i !in b
    ensures InArray(m', b) && Data(m', b) == Data(m, b)
  {
    hide Data;
    DataSame(m, m', b);
  }

  // ------------------------------------------------------------------ walking the links

  /** Slot `i` is the top of the subtree `t` in the hole of `c` in the tree `w`. */
  ghost predicate Focused<T>(m: seq<Node<T>>, w: Tree, c: Ctx, t: Tree, i: nat) {
    Plug(c, t) == w && Links(m, t, i, Above(c))
  }

  lemma {:induction false} GoDown<T>(m: seq<Node<T>>, w: Tree, c: Ctx, t: Tree, i: nat)
    requires Focused(m, w, c, t, i) && i != 0
    ensures t.Bin? && t.i == i && i < |m| && m[i].active
    ensures Focused(m, w, InRight(c, t.l, i), t.r, m[i].right) && (m[i].right == 0 <==> t.r.Nil?)
    ensures Focused(m, w, InLeft(c, i, t.r), t.l, m[i].left) && (m[i].left == 0 <==> t.l.Nil?)
  {
    LinksRoot(m, t.l, m[i].left, i);
    LinksRoot(m, t.r, m[i].right, i);
  }

  lemma {:induction false} Bottom<T>(m: seq<Node<T>>, w: Tree, c: Ctx, t: Tree, i: nat)
    requires Focused(m, w, c, t, i)
    ensures i == 0 <==> t.Nil?
    ensures i == 0 ==> w == Plug(c, Nil) && Idx(w) == Before(c) + After(c)
  {
    LinksRoot(m, t, i, Above(c));
    IdxPlug(c, t);
    assert t.Nil? ==> Before(c) + Idx(t) + After(c) == Before(c) + After(c);
  }

  /** Bringing a slot of the tree into focus. */
  lemma {:induction false} FocusSlot<T>(m: seq<Node<T>>, root: nat, w: Tree, i: nat) returns (c: Ctx, t: Tree)
    requires Links(m, w, root, 0) && i in Idx(w)
    ensures Focused(m, w, c, t, i) && i != 0 && CtxLinks(m, c, i, root) && t.Bin? && t.i == i
    ensures Idx(w) == Before(c) + Idx(t) + After(c)
  {
    hide Idx, Links, CtxLinks, Before, After;
    var l, r;
    c, l, r := Focus(w, Top, i);
    t := Bin(l, i, r);
    PlugLinks(m, c, t, root);
    LinksRoot(m, t, i, Above(c));
    IdxPlug(c, t);
  }

  lemma {:induction false} FirstOfBin(l: Tree, i: nat, r: Tree)
    ensures FirstOr0(Idx(Bin(l, i, r))) == if l.Nil? then i else FirstOr0(Idx(l))
    ensures LastOr0(Idx(Bin(l, i, r))) == if r.Nil? then i else LastOr0(Idx(r))
  {
    if l.Bin? { assert i in [i] && |Idx(l)| > 0 by { assert Idx(l) == Idx(l.l) + [l.i] + Idx(l.r); } }
    if r.Bin? { assert |Idx(r)| > 0 by { assert Idx(r) == Idx(r.l) + [r.i] + Idx(r.r); } }
  }

  lemma {:induction false} EmptyEnds()
    ensures FirstOr0(Idx(Nil)) == 0 && LastOr0(Idx(Nil)) == 0
  {
  }

  lemma {:induction false} FocusedPlug<T>(m: seq<Node<T>>, w: Tree, c: Ctx, t: Tree, i: nat)
    requires Focused(m, w, c, t, i)
    ensures Plug(c, t) == w
  {
  }

  /** The neighbours of a focused slot. */
  lemma {:induction false} Neighbours(c: Ctx, l: Tree, i: nat, r: Tree)
    ensures var s := Idx(Plug(c, Bin(l, i, r)));
            && Follows(s, i, if r.Bin? then FirstOr0(Idx(r)) else FirstOr0(After(c)))
            && Precedes(s, i, if l.Bin? then LastOr0(Idx(l)) else LastOr0(Before(c)))
  {
    IdxPlug(c, Bin(l, i, r));
    DataAssoc(Before(c), Idx(l), [i], Idx(r), After(c));
    BinNonEmpty(l);
    BinNonEmpty(r);
    assert Idx(Plug(c, Bin(l, i, r))) == (Before(c) + Idx(l)) + [i] + (Idx(r) + After(c));
    hide Idx, Before, After, Plug, Follows, Precedes;
    SplitNeighbours(Before(c) + Idx(l), i, Idx(r) + After(c));
    EndsOfSum(Idx(r), After(c));
    EndsOfSum(Before(c), Idx(l));
  }

  lemma {:induction false} BinNonEmpty(t: Tree)
    ensures t.Bin? <==> Idx(t) != []
  {
  }

  /** Where the climb to a neighbour ends. */
  lemma {:induction false} ClimbEnds(c: Ctx)
    ensures c.InLeft? ==> FirstOr0(After(c)) == c.i && LastOr0(Before(c)) == LastOr0(Before(c.up))
    ensures c.InRight? ==> LastOr0(Before(c)) == c.i && FirstOr0(After(c)) == FirstOr0(After(c.up))
    ensures c.Top? ==> FirstOr0(After(c)) == 0 && LastOr0(Before(c)) == 0
  {
  }

  /** One step up: the slot above and which of its links leads back. */
  lemma {:induction false} GoUp<T>(m: seq<Node<T>>, root: nat, w: Tree, c: Ctx, t: Tree, i: nat)
    requires Focused(m, w, c, t, i) && i != 0 && CtxLinks(m, c, i, root) && NoDup(Idx(w))
    ensures 0 < i < |m| && m[i].parent == Above(c) < |m|
    ensures c.InLeft? ==> m[c.i].left == i && m[c.i].right != i
    ensures c.InLeft? ==> Focused(m, w, c.up, Bin(t, c.i, c.r), c.i) && CtxLinks(m, c.up, c.i, root)
    ensures c.InRight? ==> m[c.i].right == i && m[c.i].left != i
    ensures c.InRight? ==> Focused(m, w, c.up, Bin(c.l, c.i, t), c.i) && CtxLinks(m, c.up, c.i, root)
    ensures c.Top? <==> Above(c) == 0
  {
    hide Idx, NoDup;
    NoDupPlug(c, t);
    CtxRange(m, c, i, root);
    LinksRoot(m, t, i, Above(c));
    RootIn(t);
    InCtx(c);
    if c.InLeft? {
      LinksRoot(m, c.r, m[c.i].right, c.i);
      RootIn(c.r);
    } else if c.InRight? {
      LinksRoot(m, c.l, m[c.i].left, c.i);
      RootIn(c.l);
    }
  }

  // ------------------------------------------------------------------ searching

  /** What a search has learned on its way down to the focus. */
  ghost predicate Searching<T(!new)>(cmp: (T, T) -> int, m: seq<Node<T>>, w: Tree, c: Ctx, t: Tree, i: nat, v: T) {
    Focused(m, w, c, t, i) && Cut(cmp, m, c, v)
  }

  lemma {:induction false} SearchDown<T(!new)>(cmp: (T, T) -> int, m: seq<Node<T>>, w: Tree, c: Ctx, t: Tree, i: nat,
                                               v: T)
    requires TotalPreorder(cmp) && Ordered(cmp, m, Idx(w)) && Searching(cmp, m, w, c, t, i, v) && i != 0
    ensures t.Bin? && t.i == i && i < |m| && m[i].active && i in Idx(w) && w == Plug(c, t)
    ensures cmp(m[i].data, v) < 0 ==> Searching(cmp, m, w, InRight(c, t.l, i), t.r, m[i].right, v)
    ensures cmp(m[i].data, v) > 0 ==> Searching(cmp, m, w, InLeft(c, i, t.r), t.l, m[i].left, v)
    ensures m[i].right == 0 <==> t.r.Nil?
    ensures m[i].left == 0 <==> t.l.Nil?
  {
    GoDown(m, w, c, t, i);
    hide Idx, Links, Cut, TotalPreorder, Ordered;
    Descend(cmp, m, c, t.l, i, t.r, v);
    IdxPlug(c, t);
    InBin(t.l, i, t.r);
  }

  lemma {:induction false} SearchStart<T(!new)>(cmp: (T, T) -> int, m: seq<Node<T>>, w: Tree, root: nat, v: T)
    requires Links(m, w, root, 0)
    ensures Searching(cmp, m, w, Top, w, root, v)
  {
  }

  /** At an empty link the cut goes through the whole order. */
  lemma {:induction false} SearchMissed<T(!new)>(cmp: (T, T) -> int, m: seq<Node<T>>, w: Tree, c: Ctx, t: Tree, v: T,
                                                 strict: bool)
    requires TotalPreorder(cmp) && Ordered(cmp, m, Idx(w)) && Searching(cmp, m, w, c, t, 0, v) && 0 !in Idx(w)
    ensures IsLast(cmp, m, Idx(w), v, strict, LastOr0(Before(c)))
    ensures IsFirst(cmp, m, Idx(w), v, strict, FirstOr0(After(c)))
  {
    Bottom(m, w, c, t, 0);
    hide Idx, Links, TotalPreorder, Sorted, Data, Before, After, IsLast, IsFirst;
    CutEither(cmp, Data(m, Before(c)), Data(m, After(c)), v, strict);
    NotInParts(Before(c), After(c), 0);
    CutNeighbours(cmp, m, Before(c), After(c), v, strict);
  }

  lemma {:induction false} CutEither<T>(cmp: (T, T) -> int, d: seq<T>, e: seq<T>, v: T, strict: bool)
    requires AllUnder(cmp, d, v, true) && NoneUnder(cmp, e, v, false)
    ensures AllUnder(cmp, d, v, strict) && NoneUnder(cmp, e, v, strict)
  {
    assert forall k :: 0 <= k < |d| ==> Under(cmp, d[k], v, true);
    assert forall k :: 0 <= k < |e| ==> !Under(cmp, e[k], v, false);
  }

  /** At an equal value the cut goes beside it. */
  lemma {:induction false} SearchFound<T(!new)>(cmp: (T, T) -> int, m: seq<Node<T>>, w: Tree, c: Ctx, t: Tree, i: nat,
                                                v: T)
    requires TotalPreorder(cmp) && Ordered(cmp, m, Idx(w)) && Searching(cmp, m, w, c, t, i, v) && 0 !in Idx(w)
    requires i != 0 && i < |m| && cmp(m[i].data, v) == 0 && t.Bin?
    ensures IsLast(cmp, m, Idx(w), v, false, i) && IsFirst(cmp, m, Idx(w), v, true, i)
    ensures IsLast(cmp, m, Idx(w), v, true, LastOr0(Before(c) + Idx(t.l)))
    ensures IsFirst(cmp, m, Idx(w), v, false, FirstOr0(Idx(t.r) + After(c)))
  {
    GoDown(m, w, c, t, i);
    IdxPlug(c, t);
    var a, b := Before(c) + Idx(t.l), Idx(t.r) + After(c);
    DataAssoc(Before(c), Idx(t.l), [i], Idx(t.r), After(c));
    assert Idx(w) == a + [i] + b;
    hide Idx, Links, TotalPreorder, Sorted, Data, Before, After, IsLast, IsFirst, LastOr0, FirstOr0;
    CutAt(cmp, m, a, i, b, v);
  }

  lemma {:induction false} CutAt<T(!new)>(cmp: (T, T) -> int, m: seq<Node<T>>, a: seq<nat>, i: nat, b: seq<nat>, v: T)
    requires TotalPreorder(cmp) && Ordered(cmp, m, a + [i] + b) && 0 !in a + [i] + b
    requires i < |m| && cmp(m[i].data, v) == 0
    ensures IsLast(cmp, m, a + [i] + b, v, false, i) && IsFirst(cmp, m, a + [i] + b, v, true, i)
    ensures IsLast(cmp, m, a + [i] + b, v, true, LastOr0(a))
    ensures IsFirst(cmp, m, a + [i] + b, v, false, FirstOr0(b))
  {
    hide TotalPreorder, Sorted, Data, IsLast, IsFirst, InArray, AllUnder, NoneUnder;
    DataParts(m, a + [i], b);
    DataParts(m, a, [i]);
    DataParts(m, [i], b);
    DataOne(m, i);
    var d, x, e := Data(m, a), m[i].data, Data(m, b);
    UnderAt(cmp, d, x, e, v);
    EqualUnder(cmp, x, v);
    UnderParts(cmp, d, [x], v, false);
    UnderParts(cmp, [x], e, v, true);
    NotInParts(a + [i], b, 0);
    NotInParts(a, [i], 0);
    CutNeighbours(cmp, m, a + [i], b, v, false);
    assert a + ([i] + b) == a + [i] + b;
    assert 0 !in [i] + b;
    DataParts(m, a, [i] + b);
    CutNeighbours(cmp, m, a, [i] + b, v, true);
  }

  lemma {:induction false} EqualUnder<T>(cmp: (T, T) -> int, x: T, v: T)
    requires cmp(x, v) == 0
    ensures AllUnder(cmp, [x], v, false) && NoneUnder(cmp, [x], v, true)
  {
  }

  lemma {:induction false} SearchingAt<T(!new)>(cmp: (T, T) -> int, m: seq<Node<T>>, w: Tree, c: Ctx, t: Tree, i: nat,
                                                v: T)
    requires Searching(cmp, m, w, c, t, i, v)
    ensures Focused(m, w, c, t, i) && Cut(cmp, m, c, v) && (i == 0 ==> t.Nil? && w == Plug(c, Nil))
        && (i != 0 ==> t.Bin?)
  {
    Bottom(m, w, c, t, i);
  }

  lemma {:induction false} HeightDown(t: Tree)
    ensures t.Bin? ==> Height(t.l) < Height(t) && Height(t.r) < Height(t)
  {
  }

  lemma {:induction false} TreeSlots<T(!new)>(cmp: (T, T) -> int, m: seq<Node<T>>, root: nat, w: Tree)
    requires Links(m, w, root, 0) && Ordered(cmp, m, Idx(w))
    ensures 0 !in Idx(w) && InArray(m, Idx(w))
  {
    LinksRange(m, w, root, 0);
  }

  lemma {:induction false} HasSlot<T(!new)>(cmp: (T, T) -> int, m: seq<Node<T>>, s: seq<nat>, i: nat, v: T)
    requires InArray(m, s) && i in s && i < |m| && cmp(m[i].data, v) == 0
    ensures Has(cmp, Data(m, s), v)
  {
    var k :| 0 <= k < |s| && s[k] == i;
    assert cmp(Data(m, s)[k], v) == 0;
  }

  /** No value at a cut through the whole order equals `v`. */
  lemma {:induction false} HasNot<T(!new)>(cmp: (T, T) -> int, m: seq<Node<T>>, c: Ctx, v: T)
    requires Cut(cmp, m, c, v) && InArray(m, Idx(Plug(c, Nil)))
    ensures !Has(cmp, Data(m, Idx(Plug(c, Nil))), v)
  {
    IdxPlug(c, Nil);
    assert Idx(Plug(c, Nil)) == Before(c) + After(c);
    hide Idx, Before, After, Plug, Has, Data, InArray;
    DataParts(m, Before(c), After(c));
    HasParts(cmp, Data(m, Before(c)), Data(m, After(c)), v);
    HasNone(cmp, Data(m, Before(c)), Data(m, After(c)), v);
  }

  lemma {:induction false} HasNone<T(!new)>(cmp: (T, T) -> int, d: seq<T>, e: seq<T>, v: T)
    requires AllUnder(cmp, d, v, true) && NoneUnder(cmp, e, v, false)
    ensures !Has(cmp, d, v) && !Has(cmp, e, v)
  {
    assert forall k :: 0 <= k < |d| ==> Under(cmp, d[k], v, true);
    assert forall k :: 0 <= k < |e| ==> !Under(cmp, e[k], v, false);
  }
}
