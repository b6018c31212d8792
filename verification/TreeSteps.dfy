/** The steps of insertion, deletion and compaction on a whole tree in its context. */
module TreeSteps {
  import opened SlotLists
  import opened TreeShape
  import opened TreeRotate

  // ------------------------------------------------------------------ rotation in context

  /** Whether `rotate` makes a simple rotation. */
  predicate Simple(b: int, left: bool) { if left then b >= 0 else b <= 0 }

  /** The slot that `rotate` raises. */
  function Raised<T>(m: seq<Node<T>>, n: nat, left: bool): nat
    requires n < |m|
  {
    if Simple(m[n].balance, left) then n else Near(m[n], left)
  }

  /** The subtree before a rotation: `n` is the far child of `p`. */
  function Unrotated(left: bool, a: Tree, p: nat, b: Tree, n: nat, c: Tree): Tree {
    Mk(left, a, p, Mk(left, b, n, c))
  }

  /** The subtree after it. */
  function RotatedShape(left: bool, simple: bool, a: Tree, p: nat, b: Tree, n: nat, c: Tree): Tree
    requires simple || b.Bin?
  {
    if simple then SimpleShape(left, a, p, b, n, c)
    else if left then DoubleShape(left, a, p, b.l, b.i, b.r, n, c)
    else DoubleShape(left, a, p, b.r, b.i, b.l, n, c)
  }

  /** What a rotation may change besides links: the balances of the slots it moves. */
  ghost predicate RotatedNodes<T>(m: seq<Node<T>>, r: seq<Node<T>>, n: nat, p: nat, left: bool)
    requires n < |m| && p < |m| && Near(m[n], left) < |m|
  {
    && SameData(m, r)
    && (var s := Near(m[n], left);
        var simple := Simple(m[n].balance, left);
        && (forall z :: 0 <= z < |m| && z != n && z != p && (simple || z != s) ==> r[z].balance == m[z].balance)
        && (simple ==> r[p].balance == (if m[n].balance == 0 then (if left then 1 else -1) else 0)
                       && r[n].balance == (if m[n].balance == 0 then (if left then -1 else 1) else 0))
        && (!simple ==> r[s].balance == 0
                        && r[if left then p else n].balance == (if m[s].balance > 0 then -1 else 0)
                        && r[if left then n else p].balance == (if m[s].balance < 0 then 1 else 0)))
  }

  lemma {:induction false} BinMk(left: bool, b: Tree)
    requires b.Bin?
    ensures b == if left then Mk(left, b.l, b.i, b.r) else Mk(left, b.r, b.i, b.l)
  {
  }

  /** The array after the links and balances of a rotation, before `replace_node`. */
  function RotateNodes<T>(m: seq<Node<T>>, n: nat, p: nat, left: bool): (r: seq<Node<T>>)
    requires 0 < n < |m| && 0 < p < |m| && Rotatable(m, n, left)
    ensures |r| == |m|
  {
    if Simple(m[n].balance, left) then RotateSimple(m, n, p, left) else RotateDouble(m, n, p, Near(m[n], left), left)
  }

  /** The links that a rotation follows lead to slots. */
  predicate Rotatable<T>(m: seq<Node<T>>, n: nat, left: bool)
    requires n < |m|
  {
    && Near(m[n], left) < |m|
    && (!Simple(m[n].balance, left) ==>
          (var s := Near(m[n], left); 0 < s && Near(m[s], left) < |m| && Far(m[s], left) < |m|))
  }

  /** The array and root slot after `rotate`. */
  function RotateAll<T>(m: seq<Node<T>>, root: nat, g: nat, n: nat, p: nat, left: bool): (r: (seq<Node<T>>, nat))
    requires 0 < n < |m| && 0 < p < |m| && g < |m| && Rotatable(m, n, left)
    ensures |r.0| == |m|
  {
    var s := Raised(m, n, left);
    var m2 := Relink(RotateNodes(m, n, p, left), root, g, p, s);
    (SetParent(m2.0, s, g), m2.1)
  }

  /** `target` hangs below `parent`, or is the root. */
  predicate LinkedFrom<T>(m: seq<Node<T>>, root: nat, parent: nat, target: nat)
    requires parent < |m|
  {
    if parent == 0 then root == target else m[parent].active && (m[parent].left == target || m[parent].right == target)
  }

  /** Nothing outside `s` changes. */
  ghost predicate SameOutside<T>(m: seq<Node<T>>, r: seq<Node<T>>, s: seq<nat>) {
    |r| == |m| && forall z :: 0 <= z < |m| && z !in s ==> r[z] == m[z]
  }

  /** The subtrees and distinct slots of an unrotated subtree. */
  lemma {:induction false} UnrotatedParts<T>(m: seq<Node<T>>, left: bool, a: Tree, p: nat, b: Tree, n: nat, c: Tree,
                                             q: nat)
    requires Links(m, Unrotated(left, a, p, b, n, c), p, q)
    requires NoDup(Idx(Unrotated(left, a, p, b, n, c)))
    ensures 0 < n < |m| && 0 < p < |m| && n != p && m[n].active && m[p].active && Far(m[p], left) == n
        && m[p].parent == q
    ensures Links(m, b, Near(m[n], left), n) && NoDup(Idx(b)) && n !in Idx(b) && p !in Idx(b)
    ensures Near(m[n], left) < |m| && Near(m[n], left) != n && Near(m[n], left) != p
    ensures Near(m[n], left) != 0 ==> m[Near(m[n], left)].parent == n
    ensures p in Idx(Unrotated(left, a, p, b, n, c)) && n in Idx(Unrotated(left, a, p, b, n, c))
    ensures forall x :: x in Idx(b) ==> x in Idx(Unrotated(left, a, p, b, n, c))
  {
    var t := Mk(left, b, n, c);
    MkLinks(m, left, a, p, t, p, q);
    MkIdx(left, a, p, t);
    MkLinks(m, left, b, n, c, Far(m[p], left), p);
    MkIdx(left, b, n, c);
    RootSlot(m, b, Near(m[n], left), n);
    if Near(m[n], left) != 0 { LinksParent(m, b, Near(m[n], left), n); }
    hide Mk, NoDup, Idx, Links;
  }

  lemma {:induction false} InsideSimple<T>(m: seq<Node<T>>, left: bool, a: Tree, p: nat, b: Tree, n: nat, c: Tree,
                                           q: nat)
    requires Links(m, Unrotated(left, a, p, b, n, c), p, q)
    requires NoDup(Idx(Unrotated(left, a, p, b, n, c)))
    requires n < |m| && Simple(m[n].balance, left)
    ensures 0 < p < |m| && 0 < n && Rotatable(m, n, left)
    ensures var r := RotateNodes(m, n, p, left);
            && Links(r, RotatedShape(left, true, a, p, b, n, c), n, r[n].parent)
            && RotatedNodes(m, r, n, p, left)
            && SameOutside(m, r, Idx(Unrotated(left, a, p, b, n, c)))
  {
    hide Mk, NoDup, Idx, RotateSimple, RotateDouble, Links, Near, Far;
    UnrotatedParts(m, left, a, p, b, n, c, q);
    SimpleLinks(m, left, a, p, b, n, c, q);
    RootSlot(m, b, Near(m[n], left), n);
    SimpleAt(m, RotateSimple(m, n, p, left), n, p, Near(m[n], left), left);
    LinksParent(RotateSimple(m, n, p, left), SimpleShape(left, a, p, b, n, c), n, p);
  }

  lemma {:induction false} InsideDouble<T>(m: seq<Node<T>>, left: bool, a: Tree, p: nat, b: Tree, n: nat, c: Tree,
                                           q: nat)
    requires Links(m, Unrotated(left, a, p, b, n, c), p, q)
    requires NoDup(Idx(Unrotated(left, a, p, b, n, c)))
    requires n < |m| && !Simple(m[n].balance, left) && b.Bin?
    ensures 0 < p < |m| && 0 < n && Rotatable(m, n, left) && Near(m[n], left) == b.i
    ensures var r := RotateNodes(m, n, p, left);
            && Links(r, RotatedShape(left, false, a, p, b, n, c), b.i, r[b.i].parent)
            && RotatedNodes(m, r, n, p, left)
            && SameOutside(m, r, Idx(Unrotated(left, a, p, b, n, c)))
  {
    hide Mk, NoDup, Idx, RotateSimple, RotateDouble, Links, Near, Far, RotatedNodes, DoubleShape, Simple;
    UnrotatedParts(m, left, a, p, b, n, c, q);
    BinMk(left, b);
    var x, s, y := if left then b.l else b.r, b.i, if left then b.r else b.l;
    RootSlot(m, b, Near(m[n], left), n);
    LinksRoot(m, b, Near(m[n], left), n);
    DoubleLinks(m, left, a, p, x, s, y, n, c, q);
    DoubleInside(m, left, p, x, s, y, n);
    LinksRoot(RotateDouble(m, n, p, s, left), RotatedShape(left, false, a, p, b, n, c), s, n);
    LinksParent(RotateDouble(m, n, p, s, left), RotatedShape(left, false, a, p, b, n, c), s, n);
  }

  lemma {:induction false} LinksParent<T>(m: seq<Node<T>>, t: Tree, i: nat, p: nat)
    requires Links(m, t, i, p) && i != 0
    ensures i < |m| && m[i].parent == p
  {
  }

  /** The rotated subtree, with the slots outside untouched. */
  lemma {:induction false} RotateInside<T>(m: seq<Node<T>>, left: bool, a: Tree, p: nat, b: Tree, n: nat, c: Tree,
                                           q: nat)
    requires Links(m, Unrotated(left, a, p, b, n, c), p, q)
    requires NoDup(Idx(Unrotated(left, a, p, b, n, c)))
    requires n < |m| && (!Simple(m[n].balance, left) ==> b.Bin?)
    ensures 0 < p < |m| && 0 < n && Rotatable(m, n, left) && Raised(m, n, left) != 0
    ensures var r := RotateNodes(m, n, p, left);
            && Links(r, RotatedShape(left, Simple(m[n].balance, left), a, p, b, n, c), Raised(m, n, left),
                r[Raised(m, n, left)].parent)
            && RotatedNodes(m, r, n, p, left)
            && SameOutside(m, r, Idx(Unrotated(left, a, p, b, n, c)))
  {
    hide Mk, NoDup, Idx, Links, RotatedNodes, RotatedShape, RotateNodes, SameOutside, Unrotated;
    if Simple(m[n].balance, left) {
      InsideSimple(m, left, a, p, b, n, c, q);
    } else {
      InsideDouble(m, left, a, p, b, n, c, q);
    }
  }

  lemma {:induction false} DoubleInside<T>(m: seq<Node<T>>, left: bool, p: nat, x: Tree, s: nat, y: Tree, n: nat)
    requires 0 < n < |m| && 0 < p < |m| && 0 < s < |m| && s != n && s != p && n != p && s == Near(m[n], left)
    requires Links(m, Mk(left, x, s, y), s, n) && NoDup(Idx(Mk(left, x, s, y)))
    requires n !in Idx(Mk(left, x, s, y)) && p !in Idx(Mk(left, x, s, y)) && !Simple(m[n].balance, left)
    ensures Near(m[s], left) < |m| && Far(m[s], left) < |m|
    ensures RotatedNodes(m, RotateDouble(m, n, p, s, left), n, p, left)
    ensures forall z ::
        0 <= z < |m| && z !in Idx(Mk(left, x, s, y)) && z != n && z != p ==> RotateDouble(m, n, p, s, left)[z] == m[z]
  {
    MkLinks(m, left, x, s, y, s, n);
    MkIdx(left, x, s, y);
    hide Mk, NoDup, Idx, RotateDouble, Links;
    RootSlot(m, x, Near(m[s], left), s);
    RootSlot(m, y, Far(m[s], left), s);
    forall z: nat | z < |m|
      ensures RotateDouble(m, n, p, s, left)[z] == DoubleNode(m, n, p, s, left,
          z).(balance := DoubleBalance(m, n, p, s, left, z))
    {
      DoubleAt(m, n, p, s, Near(m[s], left), Far(m[s], left), left, z);
    }
  }

  /** `rotate` in its place: the links of the whole tree. */
  lemma {:induction false} RotatePlugged<T>(m: seq<Node<T>>, root: nat, u: Ctx, left: bool, a: Tree, p: nat, b: Tree,
                                            n: nat, c: Tree)
    requires Links(m, Plug(u, Unrotated(left, a, p, b, n, c)), root, 0)
    requires NoDup(Idx(Plug(u, Unrotated(left, a, p, b, n, c))))
    requires n < |m| && (!Simple(m[n].balance, left) ==> b.Bin?)
    ensures 0 < p < |m| && 0 < n && Above(u) < |m| && Rotatable(m, n, left) && m[p].parent == Above(u)
        && Far(m[p], left) == n
    ensures m[n].active && m[p].active
    ensures var r := RotateAll(m, root, Above(u), n, p, left);
            var t' := RotatedShape(left, Simple(m[n].balance, left), a, p, b, n, c);
            && Links(r.0, Plug(u, t'), r.1, 0)
            && CtxLinks(r.0, u, Raised(m, n, left), r.1) && Links(r.0, t', Raised(m, n, left), Above(u))
            && RotatedNodes(m, r.0, n, p, left)
  {
    var t := Unrotated(left, a, p, b, n, c);
    RootOfMk(left, a, p, Mk(left, b, n, c));
    hide Mk, NoDup, Idx, RotateNodes, Links, CtxLinks, Plug, Before, After, RotatedNodes, RotatedShape, Relink;
    PlugLinks(m, u, t, root);
    NoDupPlug(u, t);
    CtxRange(m, u, p, root);
    UnrotatedParts(m, left, a, p, b, n, c, Above(u));
    RotateInside(m, left, a, p, b, n, c, Above(u));
    hide Unrotated, Raised, Rotatable;
    var simple, s := Simple(m[n].balance, left), Raised(m, n, left);
    var t' := RotatedShape(left, simple, a, p, b, n, c);
    var m1 := RotateNodes(m, n, p, left);
    RotatedIdx(left, simple, a, p, b, n, c);
    RootSlot(m1, t', s, m1[s].parent);
    RotateOutside(m, m1, root, u, t, t', p, s);
    SameNodes(m, m1, RotateAll(m, root, Above(u), n, p, left).0, n, p, left);
  }

  /** Halfway through, the lowered slot is still linked from above. */
  lemma {:induction false} RotateLinked<T>(m: seq<Node<T>>, root: nat, u: Ctx, left: bool, a: Tree, p: nat, b: Tree,
                                           n: nat, c: Tree)
    requires Links(m, Plug(u, Unrotated(left, a, p, b, n, c)), root, 0)
    requires NoDup(Idx(Plug(u, Unrotated(left, a, p, b, n, c))))
    requires n < |m| && (!Simple(m[n].balance, left) ==> b.Bin?)
    ensures 0 < p < |m| && 0 < n && Above(u) < |m| && Rotatable(m, n, left) && m[n].active && m[p].active
    ensures m[p].parent == Above(u) && Far(m[p], left) == n
        && (!Simple(m[n].balance, left) ==> m[Near(m[n], left)].active)
    ensures Near(m[n], left) != 0 ==> m[Near(m[n], left)].parent == n
    ensures LinkedFrom(RotateNodes(m, n, p, left), root, Above(u), p)
  {
    var t := Unrotated(left, a, p, b, n, c);
    RootOfMk(left, a, p, Mk(left, b, n, c));
    assert RootOf(t) == p;
    hide Mk, NoDup, Idx, RotateNodes, Links, Plug, Before, After, RotatedNodes, RotatedShape, Unrotated, Simple, Near,
        Far;
    PlugLinks(m, u, t, root);
    NoDupPlug(u, t);
    CtxRange(m, u, p, root);
    UnrotatedParts(m, left, a, p, b, n, c, Above(u));
    RootSlot(m, b, Near(m[n], left), n);
    RotateInside(m, left, a, p, b, n, c, Above(u));
    AboveOutside(u, t);
  }

  lemma {:induction false} SameNodes<T>(m: seq<Node<T>>, m1: seq<Node<T>>, r: seq<Node<T>>, n: nat, p: nat, left: bool)
    requires n < |m| && p < |m| && Near(m[n], left) < |m|
    requires RotatedNodes(m, m1, n, p, left)
    requires SameData(m1, r) && (forall z :: 0 <= z < |m| ==> r[z].balance == m1[z].balance)
    ensures RotatedNodes(m, r, n, p, left)
  {
  }

  lemma {:induction false} RootOfMk(left: bool, a: Tree, i: nat, b: Tree)
    ensures RootOf(Mk(left, a, i, b)) == i && i in Idx(Mk(left, a, i, b))
  {
  }

  /** A rotation keeps the order of the slots. */
  lemma {:induction false} RotatedIdx(left: bool, simple: bool, a: Tree, p: nat, b: Tree, n: nat, c: Tree)
    requires simple || b.Bin?
    ensures Idx(RotatedShape(left, simple, a, p, b, n, c)) == Idx(Unrotated(left, a, p, b, n, c))
  {
    if simple {
      IdxSimple(left, a, p, b, n, c);
    } else {
      IdxDouble(left, a, p, b, n, c);
    }
  }

  lemma {:induction false} IdxSimple(left: bool, a: Tree, p: nat, b: Tree, n: nat, c: Tree)
    ensures Idx(SimpleShape(left, a, p, b, n, c)) == Idx(Unrotated(left, a, p, b, n, c))
  {
    IdxMk(left, a, p, Mk(left, b, n, c));
    IdxMk(left, b, n, c);
    IdxMk(left, Mk(left, a, p, b), n, c);
    IdxMk(left, a, p, b);
    hide Idx, Mk;
    if left {
    } else {
    }
  }

  lemma {:induction false} IdxDouble(left: bool, a: Tree, p: nat, b: Tree, n: nat, c: Tree)
    requires b.Bin?
    ensures Idx(RotatedShape(left, false, a, p, b, n, c)) == Idx(Unrotated(left, a, p, b, n, c))
  {
    assert Idx(b) == Idx(b.l) + [b.i] + Idx(b.r);
    IdxMk(left, a, p, Mk(left, b, n, c));
    IdxMk(left, b, n, c);
    hide Idx, Mk;
    if left {
      IdxMk(left, a, p, b.l);
      IdxMk(left, b.r, n, c);
      IdxMk(left, Mk(left, a, p, b.l), b.i, Mk(left, b.r, n, c));
      Assoc5(Idx(a), [p], Idx(b.l), [b.i], Idx(b.r), [n], Idx(c));
    } else {
      IdxMk(left, a, p, b.r);
      IdxMk(left, b.l, n, c);
      IdxMk(left, Mk(left, a, p, b.r), b.i, Mk(left, b.l, n, c));
      Assoc5(Idx(c), [n], Idx(b.l), [b.i], Idx(b.r), [p], Idx(a));
    }
  }

  lemma {:induction false} IdxMk(left: bool, a: Tree, i: nat, b: Tree)
    ensures Idx(Mk(left, a, i, b)) == if left then Idx(a) + [i] + Idx(b) else Idx(b) + [i] + Idx(a)
  {
  }

  lemma {:induction false} Assoc5(a: seq<nat>, p: seq<nat>, x: seq<nat>, s: seq<nat>, y: seq<nat>, n: seq<nat>,
                                  c: seq<nat>)
    ensures (a + p + x) + s + (y + n + c) == a + p + ((x + s + y) + n + c)
    ensures (a + p + x) + s + (y + n + c) == (a + p + (x + s + y)) + n + c
  {
  }

  /** Hanging a rearranged subtree back into its context. */
  lemma {:induction false} RotateOutside<T>(m: seq<Node<T>>, m1: seq<Node<T>>, root: nat, u: Ctx, t: Tree, t': Tree,
                                            p: nat, s: nat)
    requires CtxLinks(m, u, p, root) && InRange(Before(u), |m|) && InRange(After(u), |m|) && Above(u) < |m| == |m1|
    requires NoDup(Idx(t)) && Disjoint(Idx(t), Before(u)) && Disjoint(Idx(t), After(u)) && Disjoint(Before(u), After(u))
    requires NoDup(Before(u)) && NoDup(After(u)) && p in Idx(t) && p != 0 && 0 < s < |m|
    requires Idx(t') == Idx(t) && Links(m1, t', s, m1[s].parent)
    requires SameOutside(m, m1, Idx(t))
    ensures var r := Relink(m1, root, Above(u), p, s);
            var m3 := SetParent(r.0, s, Above(u));
            && CtxLinks(m3, u, s, r.1) && Links(m3, t', s, Above(u)) && Links(m3, Plug(u, t'), r.1, 0)
            && SameData(m1, m3) && (forall z :: 0 <= z < |m| ==> m3[z].balance == m1[z].balance)
  {
    hide Links, CtxLinks, Plug, NoDup, Idx, Before, After, Relink, Above;
    var g := Above(u);
    CtxLinksFrame(m, m1, u, p, root);
    CtxRelink(m1, u, p, s, root);
    var r := Relink(m1, root, g, p, s);
    AboveOutside(u, t);
    RelinkAt(m1, root, g, p, s);
    RootSlot(m1, t', s, m1[s].parent);
    RehangBelow(m1, r.0, u, t', s, g, r.1);
  }

  /** The parent link of the new top, and with it the whole tree. */
  lemma {:induction false} RehangBelow<T>(m1: seq<Node<T>>, r: seq<Node<T>>, u: Ctx, t': Tree, s: nat, g: nat,
                                          root: nat)
    requires g == Above(u) < |m1| == |r| && 0 < s < |m1| && NoDup(Idx(t')) && Links(m1, t', s, m1[s].parent)
    requires Disjoint(Idx(t'), Before(u)) && Disjoint(Idx(t'), After(u)) && InRange(Before(u), |r|)
        && InRange(After(u), |r|)
    requires CtxLinks(r, u, s, root) && (g == 0 || g !in Idx(t')) && g != s
    requires forall x :: 0 <= x < |r| && (x != g || g == 0) ==> r[x] == m1[x]
    ensures var m3 := SetParent(r, s, g);
            CtxLinks(m3, u, s, root) && Links(m3, t', s, g) && Links(m3, Plug(u, t'), root, 0)
  {
    hide Links, CtxLinks, Plug, NoDup, Idx, Before, After, Above;
    var m3 := SetParent(r, s, g);
    RootSlot(m1, t', s, m1[s].parent);
    LinksRange(m1, t', s, m1[s].parent);
    Reparent(m1, m3, t', s, m1[s].parent, g);
    assert SameLinks(r, m3, Before(u)) && SameLinks(r, m3, After(u));
    CtxLinksFrame(r, m3, u, s, root);
    LinksPlug(m3, u, t', s, root);
  }

  lemma {:induction false} RelinkAt<T>(m: seq<Node<T>>, root: nat, g: nat, p: nat, s: nat)
    requires g < |m|
    ensures forall x :: 0 <= x < |m| && (x != g || g == 0) ==> Relink(m, root, g, p, s).0[x] == m[x]
    ensures SameData(m, Relink(m, root, g, p, s).0)
    ensures Relink(m, root, g, p, s).0[g].balance == m[g].balance && Relink(m, root, g, p, s).0[g].parent == m[g].parent
  {
  }

  /** The slot above a hole is on the path, not in the subtree. */
  lemma {:induction false} AboveOutside(u: Ctx, t: Tree)
    requires Disjoint(Idx(t), Before(u)) && Disjoint(Idx(t), After(u))
    ensures Above(u) == 0 || Above(u) !in Idx(t)
  {
    InCtx(u);
  }
}
