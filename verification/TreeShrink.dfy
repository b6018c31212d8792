/** The rebalancing loop of deletion, which runs before the slot is unlinked: balances
    speak of the tree as it will be without the slot. */
module TreeShrink {
  import opened SlotLists
  import opened TreeShape
  import opened TreeRotate
  import opened TreeSteps
  import opened TreeBalance
  import opened TreeGrow

  /** The tree without slot `e`, which has at most one child. */
  function Del(t: Tree, e: nat): Tree {
    match t
    case Nil => Nil
    case Bin(l, i, r) => if i == e then (if l.Bin? then l else r) else Bin(Del(l, e), i, Del(r, e))
  }

  predicate OneChild(t: Tree, e: nat) {
    match t
    case Nil => true
    case Bin(l, i, r) => if i == e then l.Nil? || r.Nil? else OneChild(l, e) && OneChild(r, e)
  }

  lemma {:induction false} DelNotIn(t: Tree, e: nat)
    requires e !in Idx(t)
    ensures Del(t, e) == t && OneChild(t, e)
    decreases t
  {
    match t
    case Nil =>
    case Bin(l, i, r) =>
      InBin(l, i, r);
      DelNotIn(l, e);
      DelNotIn(r, e);
  }

  lemma {:induction false} DelMk(left: bool, a: Tree, i: nat, b: Tree, e: nat)
    requires e != i
    ensures Del(Mk(left, a, i, b), e) == Mk(left, Del(a, e), i, Del(b, e))
    ensures OneChild(Mk(left, a, i, b), e) <==> OneChild(a, e) && OneChild(b, e)
  {
  }

  lemma {:induction false} DelPlug(c: Ctx, t: Tree, e: nat)
    requires e !in Before(c) && e !in After(c)
    ensures Del(Plug(c, t), e) == Plug(c, Del(t, e)) && (OneChild(Plug(c, t), e) <==> OneChild(t, e))
    decreases c
  {
    match c
    case Top =>
    case InLeft(up, i, r) =>
      DelNotIn(r, e);
      DelPlug(up, Bin(t, i, r), e);
    case InRight(up, l, i) =>
      DelNotIn(l, e);
      DelPlug(up, Bin(l, i, t), e);
  }

  /** Deleting takes one slot out of the order. */
  lemma {:induction false} DelIdx(t: Tree, e: nat) returns (s: seq<nat>, s': seq<nat>)
    requires NoDup(Idx(t)) && e in Idx(t) && OneChild(t, e)
    ensures Idx(t) == s + [e] + s' && Idx(Del(t, e)) == s + s'
  {
    var c, l, r := Focus(t, Top, e);
    var d := Bin(l, e, r);
    IdxPlug(c, d);
    NoDupPlug(c, d);
    InBin(l, e, r);
    DelPlug(c, d, e);
    s, s' := Before(c) + Idx(l), Idx(r) + After(c);
    IdxPlug(c, Del(d, e));
    Around(Before(c), Idx(l), e, Idx(r), After(c));
  }

  lemma {:induction false} Around(a: seq<nat>, l: seq<nat>, e: nat, r: seq<nat>, b: seq<nat>)
    ensures a + (l + [e] + r) + b == (a + l) + [e] + (r + b)
    ensures l == [] ==> a + r + b == (a + l) + (r + b)
    ensures r == [] ==> a + l + b == (a + l) + (r + b)
  {
  }

  lemma {:induction false} NoDupDel(t: Tree, e: nat)
    requires NoDup(Idx(t)) && OneChild(t, e)
    ensures NoDup(Idx(Del(t, e))) && Subset(Idx(Del(t, e)), Idx(t))
  {
    hide Idx;
    if e in Idx(t) {
      var s, s' := DelIdx(t, e);
      NoDupParts(s + [e], s');
      NoDupParts(s, [e]);
      NoDupParts(s, s');
    } else {
      DelNotIn(t, e);
    }
  }

  /** `t` still holds `e` and hangs in the hole of `c`; without `e` it is one lower than the
      balances along `c` say. */
  ghost predicate Shrunk<T>(m: seq<Node<T>>, root: nat, c: Ctx, t: Tree, e: nat) {
    && Links(m, Plug(c, t), root, 0) && NoDup(Idx(Plug(c, t)))
    && t.Bin? && e in Idx(t) && OneChild(t, e)
    && Bal(m, Del(t, e)) && CtxBal(m, c, Height(Del(t, e)) + 1)
  }

  /** The balances are right for the tree without `e`, which is still linked. */
  ghost predicate Detachable<T>(m: seq<Node<T>>, root: nat, w: Tree, e: nat) {
    Links(m, w, root, 0) && NoDup(Idx(w)) && e in Idx(w) && OneChild(w, e) && Bal(m, Del(w, e))
  }

  lemma {:induction false} ShrinkStart<T>(m: seq<Node<T>>, root: nat, c: Ctx, l: Tree, e: nat, r: Tree)
    requires Whole(m, root, Plug(c, Bin(l, e, r))) && (l.Nil? || r.Nil?)
    ensures Shrunk(m, root, c, Bin(l, e, r), e)
  {
    BalPlug(m, c, Bin(l, e, r));
    hide Idx, Links, NoDup, Plug;
    InBin(l, e, r);
  }

  /** The slots around a shrunk subtree. */
  lemma {:induction false} ShrunkSides<T>(m: seq<Node<T>>, root: nat, c: Ctx, t: Tree, e: nat)
    requires Shrunk(m, root, c, t, e)
    ensures t.Bin? && 0 < t.i < |m| && m[t.i].parent == Above(c) && Above(c) < |m|
    ensures c.InLeft? ==> m[c.i].left == t.i
    ensures c.InRight? ==> m[c.i].right == t.i && m[c.i].left != t.i
    ensures !c.Top? ==> 0 < c.i && m[c.i].parent == Above(c.up) && -1 <= m[c.i].balance <= 1
    ensures c.Top? ==> root == t.i
  {
    hide NoDup, Bal, Height, Idx, Del, OneChild;
    PlugLinks(m, c, t, root);
    NoDupPlug(c, t);
    if c.InRight? {
      LinksRoot(m, c.l, m[c.i].left, c.i);
      RootIn(c.l);
      RootIn(t);
      InCtx(c);
    }
  }

  lemma {:induction false} Flip(left: bool, up: Ctx, f: Tree, p: nat, t: Tree)
    ensures Mk(!left, f, p, t) == Mk(left, t, p, f)
  {
  }

  /** The far side `f`, the slot `p` and the path around a near subtree that shrinks. */
  lemma {:induction false} ShrinkParts<T>(m: seq<Node<T>>, root: nat, left: bool, up: Ctx, f: Tree, p: nat, t: Tree,
                                          e: nat)
    requires Shrunk(m, root, Hole(!left, up, f, p), t, e)
    ensures var h := Height(Del(t, e));
            && p < |m| && Tilt(left, m[p].balance) == Height(f) - (h + 1) && -1 <= Height(f) - (h + 1) <= 1
            && Bal(m, f) && CtxBal(m, up, 1 + Max(Height(f), h + 1))
    ensures Plug(Hole(!left, up, f, p), t) == Plug(up, Mk(left, t, p, f))
    ensures p !in Before(up) && p !in After(up) && p !in Idx(f) && p !in Idx(t) && p !in Idx(Del(t, e)) && p != e
    ensures Del(Mk(left, t, p, f), e) == Mk(left, Del(t, e), p, f) && OneChild(Mk(left, t, p, f), e)
        && e in Idx(Mk(left, t, p, f))
  {
    hide Links, Plug, NoDup, Idx, Bal, CtxBal, Before, After, Height, Hole, Mk, Del, OneChild, Max;
    FarBal(m, left, up, f, p, Height(Del(t, e)) + 1);
    FarSlots(left, up, f, p, t, e);
  }

  lemma {:induction false} FarBal<T>(m: seq<Node<T>>, left: bool, up: Ctx, f: Tree, p: nat, h: nat)
    requires CtxBal(m, Hole(!left, up, f, p), h)
    ensures p < |m| && Tilt(left, m[p].balance) == Height(f) - h && -1 <= Height(f) - h <= 1
    ensures Bal(m, f) && CtxBal(m, up, 1 + Max(Height(f), h))
  {
    hide CtxBal, Bal, Height, Hole;
    HoleBal(m, !left, up, f, p, h);
  }

  lemma {:induction false} FarSlots(left: bool, up: Ctx, f: Tree, p: nat, t: Tree, e: nat)
    requires NoDup(Idx(Plug(Hole(!left, up, f, p), t))) && e in Idx(t) && OneChild(t, e)
    ensures Plug(Hole(!left, up, f, p), t) == Plug(up, Mk(left, t, p, f))
    ensures p !in Before(up) && p !in After(up) && p !in Idx(f) && p !in Idx(t) && p !in Idx(Del(t, e)) && p != e
    ensures Del(Mk(left, t, p, f), e) == Mk(left, Del(t, e), p, f) && OneChild(Mk(left, t, p, f), e)
        && e in Idx(Mk(left, t, p, f))
  {
    hide Plug, NoDup, Idx, Before, After, Hole, Mk, Del, OneChild;
    HoleParts(!left, up, f, p, t);
    Flip(left, up, f, p, t);
    NoDupPlug(up, Mk(left, t, p, f));
    MkIdx(left, t, p, f);
    NoDupDel(t, e);
    DelNotIn(f, e);
    DelMk(left, t, p, f, e);
  }

  /** An ancestor that leaned towards the hole becomes even and has itself shrunk. */
  lemma {:induction false} ShrinkNear<T>(m: seq<Node<T>>, root: nat, left: bool, up: Ctx, f: Tree, p: nat, t: Tree,
                                         e: nat)
    requires Shrunk(m, root, Hole(!left, up, f, p), t, e)
    requires p < |m| && Tilt(left, m[p].balance) < 0
    ensures Shrunk(SetBalance(m, p, 0), root, up, Mk(left, t, p, f), e)
  {
    var c, u := Hole(!left, up, f, p), Del(t, e);
    hide Links, Plug, NoDup, Idx, Bal, CtxBal, Before, After, Height, Hole, Del, OneChild, Mk;
    ShrinkParts(m, root, left, up, f, p, t, e);
    MkBin(left, t, p, f);
    OneBalance(m, up, 1 + Max(Height(f), Height(u) + 1), u, f, p, 0);
    LinksSetBalance(m, Plug(c, t), root, 0, p, 0);
    MkBal(SetBalance(m, p, 0), left, u, p, f);
  }

  lemma {:induction false} MkBin(left: bool, a: Tree, i: nat, b: Tree)
    ensures Mk(left, a, i, b).Bin? && Mk(left, a, i, b).i == i
  {
  }

  /** An even ancestor tips away from the hole and keeps its height. */
  lemma {:induction false} ShrinkEven<T>(m: seq<Node<T>>, root: nat, left: bool, up: Ctx, f: Tree, p: nat, t: Tree,
                                         e: nat)
    requires Shrunk(m, root, Hole(!left, up, f, p), t, e)
    requires p < |m| && m[p].balance == 0
    ensures Detachable(SetBalance(m, p, Tilt(left, 1)), root, Plug(Hole(!left, up, f, p), t), e)
  {
    var c, u, v := Hole(!left, up, f, p), Del(t, e), Tilt(left, 1);
    hide Links, Plug, NoDup, Idx, Bal, CtxBal, Before, After, Height, Hole, Del, OneChild, Mk;
    ShrinkParts(m, root, left, up, f, p, t, e);
    OneBalance(m, up, 1 + Max(Height(f), Height(u) + 1), u, f, p, v);
    LinksSetBalance(m, Plug(c, t), root, 0, p, v);
    MkBal(SetBalance(m, p, v), left, u, p, f);
    DetachableUp(SetBalance(m, p, v), root, up, Mk(left, t, p, f), e);
  }

  /** A subtree that fits its path without `e` makes the whole tree fit. */
  lemma {:induction false} DetachableUp<T>(m: seq<Node<T>>, root: nat, c: Ctx, t: Tree, e: nat)
    requires Links(m, Plug(c, t), root, 0) && NoDup(Idx(Plug(c, t))) && e in Idx(t) && OneChild(t, e)
    requires Bal(m, Del(t, e)) && CtxBal(m, c, Height(Del(t, e)))
    ensures Detachable(m, root, Plug(c, t), e)
  {
    hide Links, Plug, NoDup, Idx, Bal, CtxBal, Before, After, Height, Del, OneChild;
    NoDupPlug(c, t);
    DelPlug(c, t, e);
    IdxPlug(c, t);
    BalPlug(m, c, Del(t, e));
  }

  /** An ancestor that leaned away from the hole is rotated: the result fits its path if the
      far child was even, else it has itself shrunk. */
  lemma {:induction false} ShrinkRotate<T>(m: seq<Node<T>>, root: nat, left: bool, up: Ctx, f: Tree, p: nat, t: Tree,
                                           e: nat)
    returns (t': Tree)
    requires Shrunk(m, root, Hole(!left, up, f, p), t, e)
    requires p < |m| && Tilt(left, m[p].balance) > 0
    ensures f.Bin? && 0 < p && 0 < f.i < |m| && Above(up) < |m| && Rotatable(m, f.i, left)
    ensures m[p].parent == Above(up) && Far(m[p], left) == f.i && Turnable(m, root, f.i, p, left)
    ensures var r := RotateAll(m, root, Above(up), f.i, p, left);
            && SameData(m, r.0)
            && Idx(Plug(up, t')) == Idx(Plug(Hole(!left, up, f, p), t))
            && (if m[f.i].balance == 0 then Detachable(r.0, r.1, Plug(up, t'), e)
                else Shrunk(r.0, r.1, up, t', e) && t'.i == Raised(m, f.i, left))
  {
    hide Links, Plug, NoDup, Idx, Bal, CtxBal, Before, After, Height, Hole, RotateAll, RotatedShape, Del, OneChild,
        Rotatable, Raised, SameData, Above, Near, Far, Simple, RotateNodes, LinkedFrom;
    ShrinkParts(m, root, left, up, f, p, t, e);
    HeightBin(f);
    var n := f.i;
    var b, c := TopOf(left, f);
    assert Mk(left, t, p, f) == Unrotated(left, t, p, b, n, c);
    hide Mk, Unrotated;
    MkBal(m, left, b, n, c);
    DoubleMid(m, left, b, n, c);
    RotateLinked(m, root, up, left, t, p, b, n, c);
    t' := ShrinkTurn(m, root, left, up, t, p, b, n, c, e);
  }

  lemma {:induction false} ShrinkTurn<T>(m: seq<Node<T>>, root: nat, left: bool, up: Ctx, t: Tree, p: nat, b: Tree,
                                         n: nat, c: Tree,
                                         e: nat)
    returns (t': Tree)
    requires Links(m, Plug(up, Unrotated(left, t, p, b, n, c)), root, 0)
        && NoDup(Idx(Plug(up, Unrotated(left, t, p, b, n, c))))
    requires 0 < n < |m| && 0 < p < |m| && Above(up) < |m| && Rotatable(m, n, left)
        && (!Simple(m[n].balance, left) ==> b.Bin?)
    requires e in Idx(t) && OneChild(t, e)
    requires Bal(m, Del(t, e)) && Bal(m, Mk(left, b, n, c)) && Height(Mk(left, b, n, c)) == Height(Del(t, e)) + 2
    requires CtxBal(m, up, Height(Del(t, e)) + 3)
    ensures var r := RotateAll(m, root, Above(up), n, p, left);
            && SameData(m, r.0)
            && Idx(Plug(up, t')) == Idx(Plug(up, Unrotated(left, t, p, b, n, c)))
            && (if m[n].balance == 0 then Detachable(r.0, r.1, Plug(up, t'), e)
                else Shrunk(r.0, r.1, up, t', e) && t'.i == Raised(m, n, left))
  {
    hide Links, CtxLinks, Plug, NoDup, Idx, Bal, CtxBal, Before, After, Height, Mk, RotateAll, RotatedShape,
        Unrotated, Del, OneChild, Raised, Above, Near, Far, Simple;
    var u, simple, h := Del(t, e), Simple(m[n].balance, left), Height(Del(t, e)) + 3;
    var w := Unrotated(left, t, p, b, n, c);
    t' := RotatedShape(left, simple, t, p, b, n, c);
    RotatePlugged(m, root, up, left, t, p, b, n, c);
    var r := RotateAll(m, root, Above(up), n, p, left);
    RotateCtxBal(m, r.0, root, left, up, t, p, b, n, c, h);
    NoDupPlug(up, w);
    DelRotated(left, simple, t, p, b, n, c, e);
    NoDupDel(w, e);
    RotateBal(m, r.0, left, u, p, b, n, c);
    RotatedIdx(left, simple, t, p, b, n, c);
    IdxPlug(up, w);
    IdxPlug(up, t');
    LinksRoot(r.0, t', Raised(m, n, left), Above(up));
    BinRotated(left, simple, t, p, b, n, c);
    hide SameData, RotatedNodes;
    if m[n].balance == 0 {
      DetachableUp(r.0, r.1, up, t', e);
    }
  }

  lemma {:induction false} BinRotated(left: bool, simple: bool, a: Tree, p: nat, b: Tree, n: nat, c: Tree)
    requires simple || b.Bin?
    ensures RotatedShape(left, simple, a, p, b, n, c).Bin?
  {
  }

  /** Deleting from the subtree that a rotation lowers. */
  lemma {:induction false} DelRotated(left: bool, simple: bool, t: Tree, p: nat, b: Tree, n: nat, c: Tree, e: nat)
    requires NoDup(Idx(Unrotated(left, t, p, b, n, c))) && e in Idx(t) && OneChild(t, e) && (simple || b.Bin?)
    ensures Del(Unrotated(left, t, p, b, n, c), e) == Unrotated(left, Del(t, e), p, b, n, c)
    ensures Del(RotatedShape(left, simple, t, p, b, n, c), e) == RotatedShape(left, simple, Del(t, e), p, b, n, c)
    ensures OneChild(Unrotated(left, t, p, b, n, c), e) && OneChild(RotatedShape(left, simple, t, p, b, n, c), e)
    ensures e in Idx(Unrotated(left, t, p, b, n, c))
  {
    hide NoDup, Idx, Mk, Del, OneChild;
    MkIdx(left, t, p, Mk(left, b, n, c));
    MkIdx(left, b, n, c);
    assert e != p && e != n && e !in Idx(b) && e !in Idx(c);
    DelNotIn(b, e);
    DelNotIn(c, e);
    DelMk(left, b, n, c, e);
    DelMk(left, t, p, Mk(left, b, n, c), e);
    if simple {
      DelMk(left, t, p, b, e);
      DelMk(left, Mk(left, t, p, b), n, c, e);
    } else {
      BinMk(left, b);
      var x, s, y := if left then b.l else b.r, b.i, if left then b.r else b.l;
      MkIdx(left, x, s, y);
      DelNotIn(x, e);
      DelNotIn(y, e);
      DelMk(left, t, p, x, e);
      DelMk(left, y, n, c, e);
      DelMk(left, Mk(left, t, p, x), s, Mk(left, y, n, c), e);
    }
  }

  /** Deletion begins at the slot itself. */
  lemma {:induction false} ShrinkFrom<T>(m: seq<Node<T>>, root: nat, w: Tree, e: nat) returns (c: Ctx, t: Tree)
    requires Whole(m, root, w) && e in Idx(w) && e < |m| && (m[e].left == 0 || m[e].right == 0)
    ensures Shrunk(m, root, c, t, e) && t.Bin? && t.i == e && Plug(c, t) == w
  {
    hide Idx, NoDup, Bal, Links, CtxLinks;
    var l, r;
    c, l, r := Focus(w, Top, e);
    t := Bin(l, e, r);
    PlugLinks(m, c, t, root);
    MkLinks(m, true, l, e, r, e, Above(c));
    LinksRoot(m, l, m[e].left, e);
    LinksRoot(m, r, m[e].right, e);
    ShrinkStart(m, root, c, l, e, r);
  }

  lemma {:induction false} ShrunkTop<T>(m: seq<Node<T>>, root: nat, c: Ctx, t: Tree, e: nat)
    requires Shrunk(m, root, c, t, e) && Above(c) == 0
    ensures Detachable(m, root, Plug(c, t), e)
  {
    ShrunkSides(m, root, c, t, e);
  }

  /** What deletion takes out of the order of the tree as it was. */
  lemma {:induction false} DetachedIdx<T>(m: seq<Node<T>>, root: nat, w: Tree, e: nat)
    returns (s: seq<nat>, s': seq<nat>)
    requires Detachable(m, root, w, e)
    ensures Idx(w) == s + [e] + s' && Idx(Del(w, e)) == s + s'
  {
    s, s' := DelIdx(w, e);
  }
}
