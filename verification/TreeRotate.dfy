/** Rotations and node replacement on the node array, and the shapes they produce. */
module TreeRotate {
  import opened SlotLists
  import opened TreeShape

  /** A node whose near subtree `a` is on the left when rotating left, else on the right. */
  function Mk(left: bool, a: Tree, i: nat, b: Tree): Tree {
    if left then Bin(a, i, b) else Bin(b, i, a)
  }

  /** The child on the near side (the side rotated towards), and the one on the far side. */
  function Near<T>(n: Node<T>, left: bool): nat { if left then n.left else n.right }
  function Far<T>(n: Node<T>, left: bool): nat { if left then n.right else n.left }

  // single writes to the node array

  function SetNear<T>(m: seq<Node<T>>, left: bool, i: nat, v: nat): (r: seq<Node<T>>)
    requires i < |m|
    ensures |r| == |m|
  {
    if left then m[i := m[i].(left := v)] else m[i := m[i].(right := v)]
  }

  function SetFar<T>(m: seq<Node<T>>, left: bool, i: nat, v: nat): (r: seq<Node<T>>)
    requires i < |m|
    ensures |r| == |m|
  {
    SetNear(m, !left, i, v)
  }

  function SetParent<T>(m: seq<Node<T>>, i: nat, v: nat): (r: seq<Node<T>>)
    requires i < |m|
    ensures |r| == |m|
  {
    m[i := m[i].(parent := v)]
  }

  /** The parent link of a child, if there is one. */
  function SetParentOf<T>(m: seq<Node<T>>, i: nat, v: nat): (r: seq<Node<T>>)
    requires i < |m|
    ensures |r| == |m|
  {
    if i == 0 then m else SetParent(m, i, v)
  }

  function SetBalance<T>(m: seq<Node<T>>, i: nat, v: int): (r: seq<Node<T>>)
    requires i < |m|
    ensures |r| == |m|
  {
    m[i := m[i].(balance := v)]
  }

  /** The simple rotation of `rotate`: links of `p` and its child `n`, then their balances. */
  function RotateSimple<T>(m: seq<Node<T>>, n: nat, p: nat, left: bool): (r: seq<Node<T>>)
    requires 0 < n < |m| && 0 < p < |m| && Near(m[n], left) < |m|
    ensures |r| == |m|
  {
    var b, even := Near(m[n], left), m[n].balance == 0;
    var m1 := SetFar(m, left, p, b);
    var m2 := SetParentOf(m1, b, p);
    var m3 := SetNear(m2, left, n, p);
    var m4 := SetParent(m3, p, n);
    var m5 := SetBalance(m4, p, if even then (if left then 1 else -1) else 0);
    SetBalance(m5, n, if even then (if left then -1 else 1) else 0)
  }

  /** The links of the double rotation: `s`, the near child of `n`, rises above both. */
  function DoubleLinked<T>(m: seq<Node<T>>, n: nat, p: nat, s: nat, left: bool): (r: seq<Node<T>>)
    requires 0 < n < |m| && 0 < p < |m| && 0 < s < |m| && Near(m[s], left) < |m| && Far(m[s], left) < |m|
    ensures |r| == |m|
  {
    var x, y := Near(m[s], left), Far(m[s], left);
    var m1 := SetNear(m, left, n, y);
    var m2 := SetParentOf(m1, y, n);
    var m3 := SetFar(m2, left, s, n);
    var m4 := SetFar(m3, left, p, x);
    var m5 := SetParentOf(m4, x, p);
    var m6 := SetNear(m5, left, s, p);
    var m7 := SetParent(m6, p, s);
    SetParent(m7, n, s)
  }

  /** The double rotation with its balances. */
  function RotateDouble<T>(m: seq<Node<T>>, n: nat, p: nat, s: nat, left: bool): (r: seq<Node<T>>)
    requires 0 < n < |m| && 0 < p < |m| && 0 < s < |m| && Near(m[s], left) < |m| && Far(m[s], left) < |m|
    ensures |r| == |m|
  {
    var b := m[s].balance;
    var m8 := DoubleLinked(m, n, p, s, left);
    var m9 := SetBalance(m8, if left then p else n, if b > 0 then -1 else 0);
    var m10 := SetBalance(m9, if left then n else p, if b < 0 then 1 else 0);
    SetBalance(m10, s, 0)
  }

  /** The first half of `replace_node`: the link from above. */
  function Relink<T>(m: seq<Node<T>>, root: nat, parent: nat, target: nat, replacement: nat): (r: (seq<Node<T>>, nat))
    requires parent < |m|
    ensures |r.0| == |m|
  {
    if parent == 0 then (m, replacement)
    else if target == m[parent].left then (m[parent := m[parent].(left := replacement)], root)
    else (m[parent := m[parent].(right := replacement)], root)
  }

  // ------------------------------------------------------------------ contexts

  /** Hanging another slot into the hole. */
  lemma {:induction false} CtxRelink<T>(m: seq<Node<T>>, c: Ctx, i: nat, j: nat, root: nat)
    requires CtxLinks(m, c, i, root) && Above(c) < |m| && i != 0
    requires i !in Before(c) && i !in After(c)
    requires NoDup(Before(c)) && NoDup(After(c)) && Disjoint(Before(c), After(c))
    ensures CtxLinks(Relink(m, root, Above(c), i, j).0, c, j, Relink(m, root, Above(c), i, j).1)
  {
    var r := Relink(m, root, Above(c), i, j);
    match c
    case Top =>
    case InLeft(up, g, t) =>
      CtxParts(c);
      InCtx(c);
      hide Idx, Before, After;
      KeepLinks(m, r.0, g, Idx(t));
      KeepLinks(m, r.0, g, Before(up));
      KeepLinks(m, r.0, g, After(up));
      LinksRange(m, t, m[g].right, g);
      LinksFrame(m, r.0, t, m[g].right, g);
      CtxRange(m, up, g, root);
      CtxLinksFrame(m, r.0, up, g, root);
    case InRight(up, t, g) =>
      CtxParts(c);
      InCtx(c);
      LinksRoot(m, t, m[g].left, g);
      RootIn(t);
      hide Idx, Before, After;
      KeepLinks(m, r.0, g, Idx(t));
      KeepLinks(m, r.0, g, Before(up));
      KeepLinks(m, r.0, g, After(up));
      LinksRange(m, t, m[g].left, g);
      LinksFrame(m, r.0, t, m[g].left, g);
      CtxRange(m, up, g, root);
      CtxLinksFrame(m, r.0, up, g, root);
  }

  lemma {:induction false} RootIn(t: Tree)
    ensures t.Bin? ==> RootOf(t) in Idx(t)
  {
  }

  /** The slot above a hole occurs nowhere else on the path. */
  lemma {:induction false} CtxParts(c: Ctx)
    requires NoDup(Before(c)) && NoDup(After(c)) && Disjoint(Before(c), After(c))
    ensures c.InLeft? ==> c.i !in Idx(c.r) && c.i !in Before(c.up) && c.i !in After(c.up)
    ensures c.InRight? ==> c.i !in Idx(c.l) && c.i !in Before(c.up) && c.i !in After(c.up)
    ensures c.InLeft? ==>
        NoDup(Idx(c.r)) && NoDup(Before(c.up)) && NoDup(After(c.up)) && Disjoint(Before(c.up), After(c.up))
    ensures c.InRight? ==>
        NoDup(Idx(c.l)) && NoDup(Before(c.up)) && NoDup(After(c.up)) && Disjoint(Before(c.up), After(c.up))
  {
    match c
    case Top =>
    case InLeft(up, i, r) =>
      InCtx(c);
      NoDupParts([i] + Idx(r), After(up));
      NoDupParts([i], Idx(r));
      assert i in [i] && i in [i] + Idx(r);
    case InRight(up, l, i) =>
      InCtx(c);
      NoDupParts(Before(up), Idx(l) + [i]);
      NoDupParts(Idx(l), [i]);
      assert i in [i] && i in Idx(l) + [i];
  }

  /** Slots in range whose nodes are not touched keep their links. */
  ghost predicate InRange(s: seq<nat>, n: nat) { forall x :: x in s ==> 0 < x < n }

  lemma {:induction false} KeepLinks<T>(m: seq<Node<T>>, m': seq<Node<T>>, g: nat, s: seq<nat>)
    requires |m| == |m'| && g !in s
    requires forall x :: 0 <= x < |m| && x != g ==> m'[x] == m[x]
    ensures InRange(s, |m|) ==> SameLinks(m, m', s)
  {
  }

  lemma {:induction false} LinksRange<T>(m: seq<Node<T>>, t: Tree, i: nat, p: nat)
    requires Links(m, t, i, p)
    ensures InRange(Idx(t), |m|)
  {
    LinksActive(m, t, i, p);
  }

  lemma {:induction false} CtxRange<T>(m: seq<Node<T>>, c: Ctx, i: nat, root: nat)
    requires CtxLinks(m, c, i, root)
    ensures InRange(Before(c), |m|) && InRange(After(c), |m|) && Above(c) <= |m| && (|m| > 0 ==> Above(c) < |m|)
    decreases c
  {
    match c
    case Top =>
    case InLeft(up, j, r) =>
      LinksRange(m, r, m[j].right, j);
      CtxRange(m, up, j, root);
    case InRight(up, l, j) =>
      LinksRange(m, l, m[j].left, j);
      CtxRange(m, up, j, root);
  }

  // ------------------------------------------------------------------ subtrees

  /** A subtree moves below another slot: only its top changes its parent link. */
  lemma {:induction false} Reparent<T>(m: seq<Node<T>>, m': seq<Node<T>>, t: Tree, i: nat, p: nat, q: nat)
    requires Links(m, t, i, p) && NoDup(Idx(t)) && |m| == |m'|
    requires t.Bin? ==> m'[i].active && m'[i].parent == q && m'[i].left == m[i].left && m'[i].right == m[i].right
    requires forall x :: x in Idx(t) && x < |m| && x != i ==> m'[x] == m[x]
    ensures Links(m', t, i, q)
  {
    match t
    case Nil =>
    case Bin(l, j, r) =>
      NoDupBin(l, j, r);
      InBin(l, j, r);
      LinksActive(m, l, m[j].left, j);
      LinksActive(m, r, m[j].right, j);
      assert SameLinks(m, m', Idx(l)) && SameLinks(m, m', Idx(r));
      hide Idx, SameLinks;
      LinksFrame(m, m', l, m[j].left, j);
      LinksFrame(m, m', r, m[j].right, j);
  }

  /** `Links` of a node in terms of its near and far side. */
  lemma {:induction false} MkLinks<T>(m: seq<Node<T>>, left: bool, a: Tree, i: nat, b: Tree, j: nat, p: nat)
    ensures Links(m, Mk(left, a, i, b), j, p) <==>
              i == j && 0 < j < |m| && m[j].active && m[j].parent == p
              && Links(m, a, Near(m[j], left), j) && Links(m, b, Far(m[j], left), j)
  {
  }

  lemma {:induction false} MkIdx(left: bool, a: Tree, i: nat, b: Tree)
    ensures Idx(Mk(left, a, i, b)) == if left then Idx(a) + [i] + Idx(b) else Idx(b) + [i] + Idx(a)
    ensures NoDup(Idx(Mk(left, a, i, b))) <==>
              NoDup(Idx(a)) && NoDup(Idx(b)) && i !in Idx(a) && i !in Idx(b) && Disjoint(Idx(a), Idx(b))
    ensures forall x :: x in Idx(Mk(left, a, i, b)) <==> x in Idx(a) || x == i || x in Idx(b)
  {
    if left { NoDupBin(a, i, b); } else { NoDupBin(b, i, a); }
  }

  predicate NotIn(i: nat, t: Tree) { i !in Idx(t) }

  // ------------------------------------------------------------------ the simple rotation

  function SimpleShape(left: bool, a: Tree, p: nat, b: Tree, n: nat, c: Tree): Tree {
    Mk(left, Mk(left, a, p, b), n, c)
  }

  /** What the simple rotation writes, slot by slot. */
  lemma {:induction false} SimpleAt<T>(m: seq<Node<T>>, r: seq<Node<T>>, n: nat, p: nat, b: nat, left: bool)
    requires 0 < n < |m| && 0 < p < |m| && n != p && b == Near(m[n], left) < |m| && b != n && b != p
    requires r == RotateSimple(m, n, p, left)
    ensures Near(r[p], left) == Near(m[p], left) && Far(r[p], left) == b && r[p].parent == n
    ensures Near(r[n], left) == p && Far(r[n], left) == Far(m[n], left) && r[n].parent == m[n].parent
    ensures r[p].balance == if m[n].balance == 0 then (if left then 1 else -1) else 0
    ensures r[n].balance == if m[n].balance == 0 then (if left then -1 else 1) else 0
    ensures b != 0 ==> r[b] == m[b].(parent := p)
    ensures forall x :: 0 <= x < |m| && x != n && x != p && (x != b || b == 0) ==> r[x] == m[x]
    ensures SameData(m, r)
  {
  }

  /** Values and activity are untouched. */
  ghost predicate SameData<T>(m: seq<Node<T>>, r: seq<Node<T>>) {
    |r| == |m| && forall x :: 0 <= x < |m| ==> r[x].data == m[x].data && r[x].active == m[x].active
  }

  lemma {:induction false} SimpleLinks<T>(m: seq<Node<T>>, left: bool, a: Tree, p: nat, b: Tree, n: nat, c: Tree,
                                          q: nat)
    requires Links(m, Mk(left, a, p, Mk(left, b, n, c)), p, q)
    requires NoDup(Idx(Mk(left, a, p, Mk(left, b, n, c))))
    ensures 0 < n < |m| && 0 < p < |m| && n != p && Near(m[n], left) < |m| && Near(m[n], left) != n
        && Near(m[n], left) != p
    ensures Links(RotateSimple(m, n, p, left), SimpleShape(left, a, p, b, n, c), n, p)
  {
    var t := Mk(left, b, n, c);
    MkLinks(m, left, a, p, t, p, q);
    MkIdx(left, a, p, t);
    MkLinks(m, left, b, n, c, Far(m[p], left), p);
    MkIdx(left, b, n, c);
    hide Links, Mk, Idx, NoDup, RotateSimple;
    SimpleLinksFrom(m, left, a, p, b, n, c);
  }

  lemma {:induction false} SimpleLinksFrom<T>(m: seq<Node<T>>, left: bool, a: Tree, p: nat, b: Tree, n: nat, c: Tree)
    requires 0 < n < |m| && 0 < p < |m| && n != p && m[n].parent == p && m[p].active && m[n].active
    requires Links(m, a, Near(m[p], left), p) && Links(m, b, Near(m[n], left), n) && Links(m, c, Far(m[n], left), n)
    requires NoDup(Idx(a)) && NoDup(Idx(b)) && NoDup(Idx(c))
    requires NotIn(p, a) && NotIn(p, b) && NotIn(p, c) && NotIn(n, a) && NotIn(n, b) && NotIn(n, c)
    requires Disjoint(Idx(a), Idx(b)) && Disjoint(Idx(b), Idx(c))
    ensures Near(m[n], left) < |m| && Near(m[n], left) != n && Near(m[n], left) != p
    ensures Links(RotateSimple(m, n, p, left), SimpleShape(left, a, p, b, n, c), n, p)
  {
    hide Links, Mk, Idx, NoDup, RotateSimple;
    RootSlot(m, b, Near(m[n], left), n);
    var r := RotateSimple(m, n, p, left);
    SimpleAt(m, r, n, p, Near(m[n], left), left);
    assert m[n].active == r[n].active && m[p].active == r[p].active;
    LinksRange(m, a, Near(m[p], left), p);
    LinksRange(m, b, Near(m[n], left), n);
    LinksRange(m, c, Far(m[n], left), n);
    assert SameLinks(m, r, Idx(a)) && SameLinks(m, r, Idx(c));
    LinksFrame(m, r, a, Near(m[p], left), p);
    LinksFrame(m, r, c, Far(m[n], left), n);
    Reparent(m, r, b, Near(m[n], left), n, p);
    MkLinks(r, left, a, p, b, p, n);
    MkLinks(r, left, Mk(left, a, p, b), n, c, n, p);
  }

  /** The slot of a subtree's top is one of its slots, or 0. */
  lemma {:induction false} RootSlot<T>(m: seq<Node<T>>, t: Tree, i: nat, p: nat)
    requires Links(m, t, i, p)
    ensures i == 0 || (i in Idx(t) && 0 < i < |m|)
    ensures i == 0 <==> t.Nil?
    ensures t.Bin? ==> m[i].active
  {
  }

  // ------------------------------------------------------------------ the double rotation

  function DoubleShape(left: bool, a: Tree, p: nat, x: Tree, s: nat, y: Tree, n: nat, c: Tree): Tree {
    Mk(left, Mk(left, a, p, x), s, Mk(left, y, n, c))
  }

  /** The node that the double rotation leaves in slot `z`, before balances are set. */
  function DoubleNode<T>(m: seq<Node<T>>, n: nat, p: nat, s: nat, left: bool, z: nat): Node<T>
    requires n < |m| && p < |m| && s < |m| && z < |m|
  {
    var x, y := Near(m[s], left), Far(m[s], left);
    if z == s then (if left then m[z].(left := p, right := n) else m[z].(right := p, left := n))
    else if z == p then (if left then m[z].(right := x, parent := s) else m[z].(left := x, parent := s))
    else if z == n then (if left then m[z].(left := y, parent := s) else m[z].(right := y, parent := s))
    else if z == x && x != 0 then m[z].(parent := p)
    else if z == y && y != 0 then m[z].(parent := n)
    else m[z]
  }

  /** The balances after the double rotation. */
  function DoubleBalance<T>(m: seq<Node<T>>, n: nat, p: nat, s: nat, left: bool, z: nat): int
    requires n < |m| && p < |m| && s < |m| && z < |m|
  {
    var b := m[s].balance;
    if z == s then 0
    else if z == (if left then p else n) then (if b > 0 then -1 else 0)
    else if z == (if left then n else p) then (if b < 0 then 1 else 0)
    else m[z].balance
  }

  lemma {:induction false} SetAt<T>(m: seq<Node<T>>, left: bool, i: nat, v: nat, w: int, z: nat)
    requires i < |m| && z < |m|
    ensures SetNear(m, left, i, v)[z] == if z != i then m[z] else if left then m[z].(left := v) else m[z].(right := v)
    ensures SetFar(m, left, i, v)[z] == if z != i then m[z] else if left then m[z].(right := v) else m[z].(left := v)
    ensures SetParent(m, i, v)[z] == if z != i then m[z] else m[z].(parent := v)
    ensures SetParentOf(m, i, v)[z] == if z != i || i == 0 then m[z] else m[z].(parent := v)
    ensures SetBalance(m, i, w)[z] == if z != i then m[z] else m[z].(balance := w)
  {
  }

  lemma {:induction false} DoubleLinkedAt<T>(m: seq<Node<T>>, n: nat, p: nat, s: nat, x: nat, y: nat, left: bool,
                                             z: nat)
    requires 0 < n < |m| && 0 < p < |m| && 0 < s < |m| && x == Near(m[s], left) < |m| && y == Far(m[s], left) < |m|
    requires s != n && s != p && n != p && x != n && x != p && x != s && y != n && y != p && y != s
    requires (x == y ==> x == 0) && z < |m|
    ensures DoubleLinked(m, n, p, s, left)[z] == DoubleNode(m, n, p, s, left, z)
  {
    hide SetNear, SetFar, SetParent, SetParentOf, SetBalance;
    SetAt(m, left, n, y, 0, z);
    var m1 := SetNear(m, left, n, y);
    SetAt(m1, left, y, n, 0, z);
    var m2 := SetParentOf(m1, y, n);
    SetAt(m2, left, s, n, 0, z);
    var m3 := SetFar(m2, left, s, n);
    SetAt(m3, left, p, x, 0, z);
    var m4 := SetFar(m3, left, p, x);
    SetAt(m4, left, x, p, 0, z);
    var m5 := SetParentOf(m4, x, p);
    SetAt(m5, left, s, p, 0, z);
    var m6 := SetNear(m5, left, s, p);
    SetAt(m6, left, p, s, 0, z);
    var m7 := SetParent(m6, p, s);
    SetAt(m7, left, n, s, 0, z);
  }

  lemma {:induction false} DoubleAt<T>(m: seq<Node<T>>, n: nat, p: nat, s: nat, x: nat, y: nat, left: bool, z: nat)
    requires 0 < n < |m| && 0 < p < |m| && 0 < s < |m| && x == Near(m[s], left) < |m| && y == Far(m[s], left) < |m|
    requires s != n && s != p && n != p && x != n && x != p && x != s && y != n && y != p && y != s
    requires (x == y ==> x == 0) && z < |m|
    ensures RotateDouble(m, n, p, s, left)[z] == DoubleNode(m, n, p, s, left,
        z).(balance := DoubleBalance(m, n, p, s, left, z))
  {
    hide DoubleLinked, SetBalance;
    DoubleLinkedAt(m, n, p, s, x, y, left, z);
    var b, m8 := m[s].balance, DoubleLinked(m, n, p, s, left);
    SetAt(m8, left, if left then p else n, 0, if b > 0 then -1 else 0, z);
    var m9 := SetBalance(m8, if left then p else n, if b > 0 then -1 else 0);
    SetAt(m9, left, if left then n else p, 0, if b < 0 then 1 else 0, z);
    var m10 := SetBalance(m9, if left then n else p, if b < 0 then 1 else 0);
    SetAt(m10, left, s, 0, 0, z);
  }

  lemma {:induction false} DoubleLinks<T>(m: seq<Node<T>>, left: bool, a: Tree, p: nat, x: Tree, s: nat, y: Tree,
                                          n: nat, c: Tree, q: nat)
    requires Links(m, Mk(left, a, p, Mk(left, Mk(left, x, s, y), n, c)), p, q)
    requires NoDup(Idx(Mk(left, a, p, Mk(left, Mk(left, x, s, y), n, c))))
    ensures 0 < n < |m| && 0 < p < |m| && 0 < s < |m| && s != n && s != p && n != p && s == Near(m[n], left)
    ensures Near(m[s], left) < |m| && Far(m[s], left) < |m|
    ensures Links(RotateDouble(m, n, p, s, left), DoubleShape(left, a, p, x, s, y, n, c), s, n)
  {
    var b := Mk(left, x, s, y);
    var t := Mk(left, b, n, c);
    MkLinks(m, left, a, p, t, p, q);
    MkIdx(left, a, p, t);
    MkLinks(m, left, b, n, c, Far(m[p], left), p);
    MkIdx(left, b, n, c);
    MkLinks(m, left, x, s, y, Near(m[n], left), n);
    MkIdx(left, x, s, y);
    hide Links, Mk, Idx, NoDup, RotateDouble;
    DoubleLinksFrom(m, left, a, p, x, s, y, n, c);
  }

  lemma {:induction false} DoubleSides<T>(m: seq<Node<T>>, n: nat, p: nat, s: nat, left: bool)
    requires n < |m| && p < |m| && s < |m| && s != n && s != p && n != p
    ensures var z := DoubleNode(m, n, p, s, left, s); Near(z, left) == p && Far(z, left) == n && z.parent == m[s].parent
    ensures var z := DoubleNode(m, n, p, s, left, p);
        Near(z, left) == Near(m[p], left) && Far(z, left) == Near(m[s], left) && z.parent == s
    ensures var z := DoubleNode(m, n, p, s, left, n);
        Near(z, left) == Far(m[s], left) && Far(z, left) == Far(m[n], left) && z.parent == s
  {
  }

  lemma BalanceSides<T>(z: Node<T>, v: int, left: bool)
    ensures Near(z.(balance := v), left) == Near(z, left) && Far(z.(balance := v), left) == Far(z, left)
  {
  }

  lemma {:induction false} DoubleLinksFrom<T>(m: seq<Node<T>>, left: bool, a: Tree, p: nat, x: Tree, s: nat, y: Tree,
                                              n: nat, c: Tree)
    requires 0 < n < |m| && 0 < p < |m| && 0 < s < |m| && s != n && s != p && n != p
    requires m[s].parent == n && m[p].active && m[n].active && m[s].active
    requires Links(m, a, Near(m[p], left), p) && Links(m, x, Near(m[s], left), s)
    requires Links(m, y, Far(m[s], left), s) && Links(m, c, Far(m[n], left), n)
    requires NoDup(Idx(a)) && NoDup(Idx(x)) && NoDup(Idx(y)) && NoDup(Idx(c))
    requires NotIn(p, a) && NotIn(p, x) && NotIn(p, y) && NotIn(p, c)
    requires NotIn(n, a) && NotIn(n, x) && NotIn(n, y) && NotIn(n, c)
    requires NotIn(s, a) && NotIn(s, x) && NotIn(s, y) && NotIn(s, c)
    requires Disjoint(Idx(a), Idx(x)) && Disjoint(Idx(a), Idx(y)) && Disjoint(Idx(x), Idx(c))
        && Disjoint(Idx(y), Idx(c))
    requires Disjoint(Idx(x), Idx(y))
    ensures Near(m[s], left) < |m| && Far(m[s], left) < |m|
    ensures Links(RotateDouble(m, n, p, s, left), DoubleShape(left, a, p, x, s, y, n, c), s, n)
  {
    hide Links, Mk, Idx, NoDup, RotateDouble, Near, Far;
    RootSlot(m, x, Near(m[s], left), s);
    RootSlot(m, y, Far(m[s], left), s);
    var r := RotateDouble(m, n, p, s, left);
    forall z: nat | z < |m|
      ensures r[z] == DoubleNode(m, n, p, s, left, z).(balance := DoubleBalance(m, n, p, s, left, z))
    {
      DoubleAt(m, n, p, s, Near(m[s], left), Far(m[s], left), left, z);
    }
    DoubleSides(m, n, p, s, left);
    BalanceSides(DoubleNode(m, n, p, s, left, s), DoubleBalance(m, n, p, s, left, s), left);
    BalanceSides(DoubleNode(m, n, p, s, left, p), DoubleBalance(m, n, p, s, left, p), left);
    BalanceSides(DoubleNode(m, n, p, s, left, n), DoubleBalance(m, n, p, s, left, n), left);
    LinksRange(m, a, Near(m[p], left), p);
    LinksRange(m, x, Near(m[s], left), s);
    LinksRange(m, y, Far(m[s], left), s);
    LinksRange(m, c, Far(m[n], left), n);
    assert SameLinks(m, r, Idx(a)) && SameLinks(m, r, Idx(c));
    LinksFrame(m, r, a, Near(m[p], left), p);
    LinksFrame(m, r, c, Far(m[n], left), n);
    Reparent(m, r, x, Near(m[s], left), s, p);
    Reparent(m, r, y, Far(m[s], left), s, n);
    MkLinks(r, left, a, p, x, p, s);
    MkLinks(r, left, y, n, c, n, s);
    MkLinks(r, left, Mk(left, a, p, x), s, Mk(left, y, n, c), s, n);
  }
}
