/** Putting one slot in the place of another: unlinking a slot with at most one child, and
    handing a slot's place in the tree over to a slot outside it. */
module TreeReplace {
  import opened SlotLists
  import opened TreeShape
  import opened TreeRotate
  import opened TreeSteps
  import opened TreeBalance
  import opened TreeShrink

  /** A link of `target` passes to `replacement`, with the child behind it. */
  function Handover<T>(m: seq<Node<T>>, left: bool, target: nat, replacement: nat): (r: seq<Node<T>>)
    requires target < |m| && replacement < |m| && Near(m[target], left) < |m|
    ensures |r| == |m|
  {
    SetParentOf(SetNear(m, left, replacement, Near(m[target], left)), Near(m[target], left), replacement)
  }

  /** The array and root slot after `replace_node`. */
  function Replaced<T>(m: seq<Node<T>>, root: nat, parent: nat, target: nat, replacement: nat,
                       children: bool): (r: (seq<Node<T>>, nat))
    requires parent < |m| && replacement < |m| && (children ==> Handed(m, target, replacement, parent))
    ensures |r.0| == |m|
  {
    var (m1, root1) := Relink(m, root, parent, target, replacement);
    if replacement == 0 then (m1, root1)
    else
      var m2 := SetParent(m1, replacement, parent);
      if !children then (m2, root1)
      else
        var m3 := SetBalance(m2, replacement, m2[target].balance);
        var m4 := Handover(m3, true, target, replacement);
        (Handover(m4, false, target, replacement), root1)
  }

  /** The slots involved in a replacement with children are apart. */
  predicate Handed<T>(m: seq<Node<T>>, target: nat, replacement: nat, parent: nat)
    requires parent < |m|
  {
    target < |m| && target != replacement && target != parent && m[target].left < |m| && m[target].right < |m|
  }

  /** After a rotation the raised slot replaces the lowered one above. */
  lemma {:induction false} RotateReplaces<T>(m: seq<Node<T>>, root: nat, g: nat, n: nat, p: nat, left: bool)
    requires 0 < n < |m| && 0 < p < |m| && g < |m| && Rotatable(m, n, left)
    ensures 0 < Raised(m, n, left) < |m|
    ensures RotateAll(m, root, g, n, p, left) == Replaced(RotateNodes(m, n, p, left), root, g, p, Raised(m, n, left),
        false)
  {
    hide RotateNodes, Relink, SetParent;
  }

  // ------------------------------------------------------------------ unlinking

  /** Unlinking the slot that deletion has rebalanced for. */
  lemma {:induction false} Unlink<T>(m: seq<Node<T>>, root: nat, w: Tree, e: nat)
    requires Detachable(m, root, w, e)
    ensures 0 < e < |m| && (m[e].left == 0 || m[e].right == 0) && m[e].parent < |m| && m[e].left < |m|
        && m[e].right < |m|
    ensures LinkedFrom(m, root, m[e].parent, e)
    ensures var r := Replaced(m, root, m[e].parent, e, if m[e].left != 0 then m[e].left else m[e].right, false);
            Whole(r.0, r.1, Del(w, e)) && SameData(m, r.0)
  {
    hide Idx, NoDup, Del, OneChild, Bal, Links;
    var c, l, r := Focus(w, Top, e);
    var t := Bin(l, e, r);
    FocusedOneChild(m, root, w, c, l, e, r);
    hide Plug, CtxLinks, Replaced;
    UnlinkAt(m, root, c, l, e, r);
    CtxLinked(m, c, e, root);
    NoDupDel(w, e);
  }

  lemma {:induction false} CtxLinked<T>(m: seq<Node<T>>, c: Ctx, i: nat, root: nat)
    requires CtxLinks(m, c, i, root) && Above(c) < |m|
    ensures LinkedFrom(m, root, Above(c), i)
  {
  }

  lemma {:induction false} FocusedOneChild<T>(m: seq<Node<T>>, root: nat, w: Tree, c: Ctx, l: Tree, e: nat, r: Tree)
    requires Detachable(m, root, w, e) && w == Plug(c, Bin(l, e, r))
    ensures l.Nil? || r.Nil?
    ensures Del(w, e) == Plug(c, if l.Bin? then l else r)
    ensures CtxLinks(m, c, e, root) && Links(m, Bin(l, e, r), e, Above(c))
  {
    hide Idx, NoDup, Bal, Links, CtxLinks;
    NoDupPlug(c, Bin(l, e, r));
    InBin(l, e, r);
    DelPlug(c, Bin(l, e, r), e);
    PlugLinks(m, c, Bin(l, e, r), root);
  }

  lemma {:induction false} UnlinkAt<T>(m: seq<Node<T>>, root: nat, c: Ctx, l: Tree, e: nat, r: Tree)
    requires NoDup(Idx(Plug(c, Bin(l, e, r)))) && (l.Nil? || r.Nil?)
    requires CtxLinks(m, c, e, root) && Links(m, Bin(l, e, r), e, Above(c))
    requires Bal(m, Plug(c, if l.Bin? then l else r))
    ensures 0 < e < |m| && (m[e].left == 0 || m[e].right == 0) && m[e].parent == Above(c) < |m| && m[e].left < |m|
        && m[e].right < |m|
    ensures var s := Replaced(m, root, m[e].parent, e, if m[e].left != 0 then m[e].left else m[e].right, false);
            var v := Plug(c, if l.Bin? then l else r);
            Links(s.0, v, s.1, 0) && Bal(s.0, v) && SameData(m, s.0)
  {
    RootSlot(m, l, m[e].left, e);
    RootSlot(m, r, m[e].right, e);
    hide Links, Idx, NoDup, Plug, CtxLinks, Bal, Above, Before, After, Replaced;
    CtxRange(m, c, e, root);
    var x := if l.Bin? then l else r;
    var i := if m[e].left != 0 then m[e].left else m[e].right;
    assert Links(m, x, i, e);
    ApartParts(c, l, e, r);
    UnlinkLinks(m, root, c, x, e, i);
    UnlinkData(m, root, Above(c), e, i);
    BalRange(m, Plug(c, x));
    BalFrame(m, Replaced(m, root, Above(c), e, i, false).0, Plug(c, x));
  }

  lemma {:induction false} UnlinkData<T>(m: seq<Node<T>>, root: nat, g: nat, e: nat, i: nat)
    requires g < |m| && i < |m|
    ensures var s := Replaced(m, root, g, e, i, false).0;
            SameData(m, s) && forall z :: 0 <= z < |m| ==> s[z].balance == m[z].balance
  {
    RelinkAt(m, root, g, e, i);
    hide Relink;
  }

  lemma {:induction false} UnlinkLinks<T>(m: seq<Node<T>>, root: nat, c: Ctx, x: Tree, e: nat, i: nat)
    requires CtxLinks(m, c, e, root) && Links(m, x, i, e) && 0 < e < |m| && Above(c) < |m|
    requires e !in Before(c) && e !in After(c) && NoDup(Before(c)) && NoDup(After(c)) && Disjoint(Before(c), After(c))
    requires NoDup(Idx(x)) && Disjoint(Idx(x), Before(c)) && Disjoint(Idx(x), After(c))
    requires InRange(Before(c), |m|) && InRange(After(c), |m|)
    ensures i < |m|
    ensures var s := Replaced(m, root, Above(c), e, i, false); Links(s.0, Plug(c, x), s.1, 0)
  {
    hide Links, Idx, NoDup, Plug, CtxLinks, Above, Before, After, Relink;
    CtxRelink(m, c, e, i, root);
    RootSlot(m, x, i, e);
    RelinkAt(m, root, Above(c), e, i);
    var q := Relink(m, root, Above(c), e, i);
    if i == 0 {
      NilLinks(q.0, x, Above(c));
      LinksPlug(q.0, c, x, 0, q.1);
    } else {
      LinksParent(m, x, i, e);
      AboveOutside(c, x);
      RehangBelow(m, q.0, c, x, i, Above(c), q.1);
    }
  }

  lemma {:induction false} NilLinks<T>(m: seq<Node<T>>, x: Tree, p: nat)
    requires x.Nil?
    ensures Links(m, x, 0, p)
  {
  }

  // ------------------------------------------------------------------ handing over

  function SetActive<T>(m: seq<Node<T>>, i: nat, a: bool): (r: seq<Node<T>>)
    requires i < |m|
    ensures |r| == |m|
  {
    m[i := m[i].(active := a)]
  }

  /** The node that a handover leaves in slot `z`, given the array `q` after the link from above. */
  function TakenNode<T>(m: seq<Node<T>>, q: seq<Node<T>>, g: nat, t: nat, j: nat, z: nat): Node<T>
    requires z < |m| == |q| && j < |m| && t < |m|
  {
    if z == j then m[j].(parent := g, balance := m[t].balance, left := m[t].left, right := m[t].right)
    else if z != 0 && (z == m[t].left || z == m[t].right) then m[z].(parent := j)
    else q[z]
  }

  /** What a replacement with children writes. */
  lemma {:induction false} ReplacedAt<T>(m: seq<Node<T>>, root: nat, g: nat, t: nat, j: nat, z: nat)
    requires g < |m| && 0 < t < |m| && 0 < j < |m| && m[t].left < |m| && m[t].right < |m| && z < |m|
    requires g != t && j != t && j != g
    requires m[t].left != t && m[t].left != j && (m[t].left == g ==> g == 0)
    requires m[t].right != t && m[t].right != j && (m[t].right == g ==> g == 0)
        && (m[t].left == m[t].right ==> m[t].left == 0)
    ensures Handed(m, t, j, g)
    ensures Replaced(m, root, g, t, j, true).1 == Relink(m, root, g, t, j).1
    ensures var r, q := Replaced(m, root, g, t, j, true).0, Relink(m, root, g, t, j).0;
            && q[j] == m[j]
            && r[z] == TakenNode(m, q, g, t, j, z)
            && (z != 0 && (z == m[t].left || z == m[t].right) ==> q[z] == m[z])
  {
    var q := Relink(m, root, g, t, j).0;
    RelinkAt(m, root, g, t, j);
    assert q[t] == m[t] && q[j] == m[j];
    hide Relink, Handover, Near;
    var m2 := SetParent(q, j, g);
    var m3 := SetBalance(m2, j, m2[t].balance);
    var m4 := Handover(m3, true, t, j);
  }

  /** The parts of a tree around slot `t` share no slot. */
  ghost predicate Apart(c: Ctx, l: Tree, t: nat, r: Tree) {
    && t !in Before(c) && t !in After(c) && t !in Idx(l) && t !in Idx(r)
    && Disjoint(Idx(l), Idx(r)) && Disjoint(Idx(l), Before(c)) && Disjoint(Idx(l), After(c))
    && Disjoint(Idx(r), Before(c)) && Disjoint(Idx(r), After(c)) && Disjoint(Before(c), After(c))
    && NoDup(Idx(l)) && NoDup(Idx(r)) && NoDup(Before(c)) && NoDup(After(c))
  }

  lemma {:induction false} ApartParts(c: Ctx, l: Tree, t: nat, r: Tree)
    ensures NoDup(Idx(Plug(c, Bin(l, t, r)))) <==> Apart(c, l, t, r)
  {
    var b := Bin(l, t, r);
    IdxPlug(c, b);
    NoDupParts(Before(c) + Idx(b), After(c));
    NoDupParts(Before(c), Idx(b));
    NoDupBin(l, t, r);
    InBin(l, t, r);
    hide Idx, Plug, NoDup;
    assert forall x :: x in Before(c) + Idx(b) <==> x in Before(c) || x in Idx(b);
  }

  lemma {:induction false} OutsideParts(c: Ctx, l: Tree, t: nat, r: Tree, j: nat)
    ensures j in Idx(Plug(c, Bin(l, t, r))) <==> j in Before(c) || j in After(c) || j in Idx(l) || j in Idx(r) || j == t
  {
    IdxPlug(c, Bin(l, t, r));
    InBin(l, t, r);
    hide Plug;
  }

  /** The slots of a whole tree around slot `t`. */
  lemma {:induction false} TakeApart<T>(m: seq<Node<T>>, root: nat, c: Ctx, l: Tree, t: nat, r: Tree)
    requires Whole(m, root, Plug(c, Bin(l, t, r)))
    ensures Apart(c, l, t, r)
    ensures 0 < t < |m| && m[t].active && m[t].parent == Above(c) < |m|
    ensures Links(m, l, m[t].left, t) && Links(m, r, m[t].right, t) && CtxLinks(m, c, t, root)
    ensures Bal(m, l) && Bal(m, r) && CtxBal(m, c, Height(Bin(l, t, r))) && m[t].balance == Height(r) - Height(l)
        && -1 <= m[t].balance <= 1
  {
    var b := Bin(l, t, r);
    BalPlug(m, c, b);
    PlugLinks(m, c, b, root);
    ApartParts(c, l, t, r);
    hide Idx, NoDup, CtxBal, Before, After;
    CtxRange(m, c, t, root);
  }

  /** The slots that the handover writes are different. */
  lemma {:induction false} TakeSlots<T>(m: seq<Node<T>>, c: Ctx, l: Tree, t: nat, r: Tree, j: nat)
    requires Apart(c, l, t, r) && j !in Idx(Plug(c, Bin(l, t, r))) && 0 < j < |m| && 0 < t < |m|
    requires Links(m, l, m[t].left, t) && Links(m, r, m[t].right, t)
    ensures m[t].left < |m| && m[t].right < |m| && j != t && j != Above(c) && t != Above(c)
    ensures m[t].left != t && m[t].left != j && (m[t].left == Above(c) ==> Above(c) == 0)
    ensures m[t].right != t && m[t].right != j && (m[t].right == Above(c) ==> Above(c) == 0)
        && (m[t].left == m[t].right ==> m[t].left == 0)
    ensures m[t].left == 0 || m[t].left in Idx(l)
    ensures m[t].right == 0 || m[t].right in Idx(r)
    ensures j !in Before(c) && j !in After(c) && j !in Idx(l) && j !in Idx(r)
  {
    hide Idx, NoDup, Before, After, Plug, Links;
    OutsideParts(c, l, t, r, j);
    RootSlot(m, l, m[t].left, t);
    RootSlot(m, r, m[t].right, t);
    AboveOn(c);
  }

  lemma {:induction false} AboveOn(c: Ctx)
    ensures Above(c) == 0 || Above(c) in Before(c) || Above(c) in After(c)
  {
    InCtx(c);
  }

  /** The handed-over subtree. */
  lemma {:induction false} TakeInside<T>(m: seq<Node<T>>, q: seq<Node<T>>, f: seq<Node<T>>, c: Ctx, l: Tree, t: nat,
                                         r: Tree, j: nat)
    requires |q| == |f| == |m| && 0 < t < |m| && 0 < j < |m| && Apart(c, l, t, r)
    requires j !in Idx(l) && j !in Idx(r)
    requires Links(m, l, m[t].left, t) && Links(m, r, m[t].right, t) && Bal(m, l) && Bal(m, r)
    requires m[t].left == 0 || m[t].left in Idx(l)
    requires m[t].right == 0 || m[t].right in Idx(r)
    requires m[t].balance == Height(r) - Height(l) && -1 <= m[t].balance <= 1
    requires forall z: nat :: z < |m| ==> f[z] == if z == j then TakenNode(m, q, Above(c), t, j, z).(active := true)
        else TakenNode(m, q, Above(c), t, j, z)
    requires forall z: nat :: z < |m| && (z in Idx(l) || z in Idx(r)) ==> q[z] == m[z]
    ensures Links(f, Bin(l, j, r), j, Above(c)) && Bal(f, Bin(l, j, r)) && Height(Bin(l, j, r)) == Height(Bin(l, t, r))
  {
    hide Idx, NoDup, Before, After;
    assert m[t].left != 0 ==> m[t].left !in Idx(r);
    assert m[t].right != 0 ==> m[t].right !in Idx(l);
    LinksRange(m, l, m[t].left, t);
    LinksRange(m, r, m[t].right, t);
    TakeSubtree(m, f, l, m[t].left, t, j);
    TakeSubtree(m, f, r, m[t].right, t, j);
  }

  lemma {:induction false} TakeSubtree<T>(m: seq<Node<T>>, f: seq<Node<T>>, l: Tree, x: nat, t: nat, j: nat)
    requires |f| == |m| && Links(m, l, x, t) && Bal(m, l) && NoDup(Idx(l)) && InRange(Idx(l), |m|)
    requires x == 0 || x in Idx(l)
    requires x != 0 && x < |m| ==> f[x] == m[x].(parent := j)
    requires forall z: nat :: z < |m| && z in Idx(l) && z != x ==> f[z] == m[z]
    ensures Links(f, l, x, j) && Bal(f, l)
  {
    RootSlot(m, l, x, t);
    hide Idx, NoDup, Links, Bal;
    Reparent(m, f, l, x, t, j);
    BalFrame(m, f, l);
  }

  /** The path above the slot handed over. */
  lemma {:induction false} TakeOutside<T>(m: seq<Node<T>>, q: seq<Node<T>>, f: seq<Node<T>>, root: nat, c: Ctx,
                                          l: Tree, t: nat, r: Tree,
                                          j: nat, h: nat)
    requires |q| == |f| == |m| && Apart(c, l, t, r) && t < |m| && j < |m|
    requires CtxLinks(q, c, j, root) && CtxBal(m, c, h) && InRange(Before(c), |m|) && InRange(After(c), |m|)
    requires j !in Before(c) && j !in After(c)
    requires m[t].left == 0 || m[t].left in Idx(l)
    requires m[t].right == 0 || m[t].right in Idx(r)
    requires forall z: nat :: z < |m| && z != j ==> f[z] == TakenNode(m, q, Above(c), t, j, z)
    requires forall z: nat :: z < |m| ==> q[z].balance == m[z].balance
    ensures CtxLinks(f, c, j, root) && CtxBal(f, c, h)
  {
    hide Idx, NoDup, Before, After, CtxLinks, CtxBal;
    forall z: nat | z < |m| && (z in Before(c) || z in After(c))
      ensures f[z] == q[z]
    {
    }
    assert SameLinks(q, f, Before(c)) && SameLinks(q, f, After(c));
    CtxLinksFrame(q, f, c, j, root);
    assert SameBalance(m, f, Before(c)) && SameBalance(m, f, After(c));
    CtxBalFrame(m, f, c, h);
  }

  /** Slot `j` takes over the place of slot `t`: links, balance and children. */
  lemma {:induction false} TakePlace<T>(m: seq<Node<T>>, root: nat, c: Ctx, l: Tree, t: nat, r: Tree, j: nat)
    requires Whole(m, root, Plug(c, Bin(l, t, r))) && j !in Idx(Plug(c, Bin(l, t, r))) && 0 < j < |m|
    ensures 0 < t < |m| && m[t].parent == Above(c) < |m| && Handed(m, t, j, Above(c))
    ensures var s := Replaced(m, root, Above(c), t, j, true);
            && Whole(SetActive(s.0, j, true), s.1, Plug(c, Bin(l, j, r)))
            && SameData(m, s.0)
  {
    hide Idx, NoDup, Plug, Bal, Links, CtxLinks, Before, After, Above, Replaced, Relink, Height, CtxBal, TakenNode,
        Apart;
    TakeApart(m, root, c, l, t, r);
    TakeSlots(m, c, l, t, r, j);
    var g, s := Above(c), Replaced(m, root, Above(c), t, j, true);
    var q := Relink(m, root, g, t, j);
    forall z: nat | z < |m|
      ensures s.0[z] == TakenNode(m, q.0, g, t, j, z)
      ensures z != 0 && (z == m[t].left || z == m[t].right) ==> q.0[z] == m[z]
      ensures q.0[j] == m[j]
    {
      ReplacedAt(m, root, g, t, j, z);
    }
    ReplacedAt(m, root, g, t, j, 0);
    TakeWhole(m, root, c, l, t, r, j, q, s.0);
    TakenData(m, q.0, s.0, root, g, t, j);
  }

  lemma {:induction false} TakenData<T>(m: seq<Node<T>>, q: seq<Node<T>>, s: seq<Node<T>>, root: nat, g: nat, t: nat,
                                        j: nat)
    requires |q| == |s| == |m| && g < |m| && t < |m| && j < |m| && q == Relink(m, root, g, t, j).0
    requires forall z: nat :: z < |m| ==> s[z] == TakenNode(m, q, g, t, j, z)
    ensures SameData(m, s)
  {
    RelinkAt(m, root, g, t, j);
    hide Relink;
  }

  lemma {:induction false} TakeWhole<T>(m: seq<Node<T>>, root: nat, c: Ctx, l: Tree, t: nat, r: Tree, j: nat,
                                        q: (seq<Node<T>>, nat),
                                        s: seq<Node<T>>)
    requires Whole(m, root, Plug(c, Bin(l, t, r))) && j !in Idx(Plug(c, Bin(l, t, r))) && 0 < j < |m| && 0 < t < |m|
        && Above(c) < |m|
    requires q == Relink(m, root, Above(c), t, j) && |s| == |m|
    requires forall z: nat :: z < |m| ==> s[z] == TakenNode(m, q.0, Above(c), t, j, z)
    ensures Whole(SetActive(s, j, true), q.1, Plug(c, Bin(l, j, r)))
  {
    hide Idx, NoDup, Plug, Bal, Links, CtxLinks, Before, After, Above, Relink, Height, CtxBal, TakenNode;
    TakeApart(m, root, c, l, t, r);
    TakeSlots(m, c, l, t, r, j);
    var f := SetActive(s, j, true);
    RelinkAt(m, root, Above(c), t, j);
    CtxRange(m, c, t, root);
    CtxRelink(m, c, t, j, root);
    AboveApart(c, l, t, r);
    TakeInside(m, q.0, f, c, l, t, r, j);
    TakeOutside(m, q.0, f, q.1, c, l, t, r, j, Height(Bin(l, t, r)));
    LinksPlug(f, c, Bin(l, j, r), j, q.1);
    BalPlug(f, c, Bin(l, j, r));
    ApartParts(c, l, j, r);
  }

  lemma {:induction false} AboveApart(c: Ctx, l: Tree, t: nat, r: Tree)
    requires Apart(c, l, t, r)
    ensures Above(c) == 0 || (Above(c) !in Idx(l) && Above(c) !in Idx(r))
  {
    AboveOn(c);
  }
}
