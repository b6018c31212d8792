/** The rebalancing loop of insertion: a subtree that has grown by one level climbs until
    an ancestor absorbs it. */
module TreeGrow {
  import opened SlotLists
  import opened TreeShape
  import opened TreeRotate
  import opened TreeSteps
  import opened TreeBalance

  /** `t` hangs in the hole of `c` and is one higher than the balances along `c` say. */
  ghost predicate Grown<T>(m: seq<Node<T>>, root: nat, c: Ctx, t: Tree) {
    && Links(m, Plug(c, t), root, 0) && NoDup(Idx(Plug(c, t)))
    && t.Bin? && t.i < |m| && Bal(m, t) && CtxBal(m, c, Height(t) - 1)
    && (Height(t) == 1 || m[t.i].balance != 0)
  }

  /** The new slot starts as a leaf in the empty hole. */
  lemma {:induction false} GrowStart<T>(m: seq<Node<T>>, root: nat, c: Ctx, e: nat)
    requires Links(m, Plug(c, Bin(Nil, e, Nil)), root, 0) && NoDup(Idx(Plug(c, Bin(Nil, e, Nil))))
    requires CtxBal(m, c, 0) && e < |m| && m[e].balance == 0
    ensures Grown(m, root, c, Bin(Nil, e, Nil))
  {
  }

  lemma {:induction false} HeightBin(t: Tree)
    ensures t.Bin? <==> Height(t) >= 1
  {
  }

  /** The slots around a grown subtree. */
  lemma {:induction false} GrownSides<T>(m: seq<Node<T>>, root: nat, c: Ctx, t: Tree)
    requires Grown(m, root, c, t)
    ensures t.Bin? && 0 < t.i < |m| && m[t.i].parent == Above(c) && Above(c) < |m| && m[t.i].active
    ensures c.InLeft? ==> m[c.i].left == t.i && m[c.i].right != t.i
    ensures c.InRight? ==> m[c.i].right == t.i
    ensures !c.Top? ==> 0 < c.i && m[c.i].parent == Above(c.up) && -1 <= m[c.i].balance <= 1
    ensures c.Top? ==> root == t.i
  {
    hide NoDup, Bal, Height, Idx;
    PlugLinks(m, c, t, root);
    NoDupPlug(c, t);
    if c.InLeft? {
      LinksRoot(m, c.r, m[c.i].right, c.i);
      RootIn(c.r);
      RootIn(t);
      InCtx(c);
    }
  }

  /** An even ancestor tips over and has itself grown. */
  lemma {:induction false} GrowEven<T>(m: seq<Node<T>>, root: nat, left: bool, up: Ctx, a: Tree, p: nat, t: Tree)
    requires Grown(m, root, Hole(left, up, a, p), t)
    requires p < |m| && m[p].balance == 0
    ensures Grown(SetBalance(m, p, Tilt(left, 1)), root, up, Mk(left, a, p, t))
  {
    hide Links, Plug, NoDup, Idx, Bal, CtxBal, Before, After, Height, Hole;
    HoleParts(left, up, a, p, t);
    HeightBin(t);
    HoleBal(m, left, up, a, p, Height(t) - 1);
    OneBalance(m, up, 1 + Max(Height(a), Height(t) - 1), a, t, p, Tilt(left, 1));
    LinksSetBalance(m, Plug(Hole(left, up, a, p), t), root, 0, p, Tilt(left, 1));
    MkBal(SetBalance(m, p, Tilt(left, 1)), left, a, p, t);
  }

  /** An ancestor that leaned the other way becomes even: the tree is whole again. */
  lemma {:induction false} GrowAbsorb<T>(m: seq<Node<T>>, root: nat, left: bool, up: Ctx, a: Tree, p: nat, t: Tree)
    requires Grown(m, root, Hole(left, up, a, p), t)
    requires p < |m| && Tilt(left, m[p].balance) < 0
    ensures Whole(SetBalance(m, p, 0), root, Plug(Hole(left, up, a, p), t))
  {
    hide Links, Plug, NoDup, Idx, Bal, CtxBal, Before, After, Height, Hole, Mk;
    HoleParts(left, up, a, p, t);
    HeightBin(t);
    HoleBal(m, left, up, a, p, Height(t) - 1);
    OneBalance(m, up, 1 + Max(Height(a), Height(t) - 1), a, t, p, 0);
    LinksSetBalance(m, Plug(Hole(left, up, a, p), t), root, 0, p, 0);
    MkBal(SetBalance(m, p, 0), left, a, p, t);
    BalPlug(SetBalance(m, p, 0), up, Mk(left, a, p, t));
  }

  /** At the root a grown tree is whole. */
  lemma {:induction false} GrowTop<T>(m: seq<Node<T>>, root: nat, t: Tree)
    requires Grown(m, root, Top, t)
    ensures Whole(m, root, Plug(Top, t))
  {
  }

  /** The parts of a grown subtree that a rotation takes apart. */
  lemma {:induction false} TopOf(left: bool, t: Tree) returns (b: Tree, c: Tree)
    requires t.Bin?
    ensures t == Mk(left, b, t.i, c)
  {
    b, c := if left then t.l else t.r, if left then t.r else t.l;
  }

  /** What `rotate` asserts about the slots it is given. */
  predicate Turnable<T>(m: seq<Node<T>>, root: nat, n: nat, p: nat, left: bool)
    requires 0 < n < |m| && 0 < p < |m| && Rotatable(m, n, left)
  {
    && m[n].active && m[p].active && m[p].parent < |m|
    && (Near(m[n], left) != 0 ==> m[Near(m[n], left)].parent == n)
    && (!Simple(m[n].balance, left) ==> m[Near(m[n], left)].active)
    && LinkedFrom(RotateNodes(m, n, p, left), root, m[p].parent, p)
  }

  /** An ancestor that leaned the same way is rotated: the tree is whole again. */
  lemma {:induction false} GrowRotate<T>(m: seq<Node<T>>, root: nat, left: bool, up: Ctx, a: Tree, p: nat, t: Tree)
    returns (w: Tree)
    requires Grown(m, root, Hole(left, up, a, p), t)
    requires p < |m| && Tilt(left, m[p].balance) > 0
    ensures 0 < p && 0 < t.i && Above(up) < |m| && Rotatable(m, t.i, left) && m[p].parent == Above(up)
        && Turnable(m, root, t.i, p, left)
    ensures var r := RotateAll(m, root, Above(up), t.i, p, left);
            Whole(r.0, r.1, w) && SameData(m, r.0)
    ensures Idx(w) == Idx(Plug(Hole(left, up, a, p), t))
  {
    hide Links, Plug, NoDup, Idx, Bal, CtxBal, Before, After, Height, Hole, RotateAll, RotatedShape, Rotatable,
        Simple, Near, Far, SameData, Above, RotateNodes, LinkedFrom;
    var n := t.i;
    var b, c := TopOf(left, t);
    assert Mk(left, a, p, t) == Unrotated(left, a, p, b, n, c);
    hide Mk, Unrotated;
    HeightBin(t);
    HolePlug(left, up, a, p, t);
    HoleBal(m, left, up, a, p, Height(t) - 1);
    MkBal(m, left, b, n, c);
    DoubleMid(m, left, b, n, c);
    RotateLinked(m, root, up, left, a, p, b, n, c);
    w := RotateDone(m, root, left, up, a, p, b, n, c, Height(t));
  }

  lemma {:induction false} DoubleMid<T>(m: seq<Node<T>>, left: bool, b: Tree, n: nat, c: Tree)
    requires n < |m| && Tilt(left, m[n].balance) == Height(c) - Height(b)
    ensures !Simple(m[n].balance, left) ==> b.Bin?
  {
  }

  /** After the rotation that ends insertion. */
  lemma {:induction false} RotateDone<T>(m: seq<Node<T>>, root: nat, left: bool, up: Ctx, a: Tree, p: nat, b: Tree,
                                         n: nat, c: Tree,
                                         h: nat)
    returns (w: Tree)
    requires Links(m, Plug(up, Unrotated(left, a, p, b, n, c)), root, 0)
        && NoDup(Idx(Plug(up, Unrotated(left, a, p, b, n, c))))
    requires 0 < n < |m| && 0 < p < |m| && Above(up) < |m| && Rotatable(m, n, left)
        && (!Simple(m[n].balance, left) ==> b.Bin?)
    requires Bal(m, a) && Bal(m, Mk(left, b, n, c)) && h == Height(Mk(left, b, n, c)) == Height(a) + 2
    requires CtxBal(m, up, if m[n].balance == 0 then h + 1 else h)
    ensures var r := RotateAll(m, root, Above(up), n, p, left);
            Whole(r.0, r.1, w) && SameData(m, r.0)
    ensures Idx(w) == Idx(Plug(up, Unrotated(left, a, p, b, n, c)))
  {
    hide Links, CtxLinks, Plug, NoDup, Idx, Bal, CtxBal, Before, After, Height, Mk, RotateAll, RotatedShape,
        Unrotated, Relink;
    var simple := Simple(m[n].balance, left);
    var t, t' := Unrotated(left, a, p, b, n, c), RotatedShape(left, simple, a, p, b, n, c);
    var r := RotateAll(m, root, Above(up), n, p, left);
    RotatePlugged(m, root, up, left, a, p, b, n, c);
    RotateBalUp(m, r.0, root, left, up, a, p, b, n, c, if m[n].balance == 0 then h + 1 else h);
    w := Plug(up, t');
    BalPlug(r.0, up, t');
    RotatedIdx(left, simple, a, p, b, n, c);
    IdxPlug(up, t);
    IdxPlug(up, t');
  }

  /** The balances inside the rotated subtree and along the path above it. */
  lemma {:induction false} RotateBalUp<T>(m: seq<Node<T>>, r: seq<Node<T>>, root: nat, left: bool, up: Ctx, a: Tree,
                                          p: nat, b: Tree,
                                          n: nat, c: Tree, h: nat)
    requires Links(m, Plug(up, Unrotated(left, a, p, b, n, c)), root, 0)
        && NoDup(Idx(Plug(up, Unrotated(left, a, p, b, n, c))))
    requires 0 < n < |m| && 0 < p < |m| && Rotatable(m, n, left) && (!Simple(m[n].balance, left) ==> b.Bin?)
    requires RotatedNodes(m, r, n, p, left)
    requires Bal(m, a) && Bal(m, Mk(left, b, n, c)) && Height(Mk(left, b, n, c)) == Height(a) + 2
    requires CtxBal(m, up, h)
    ensures var t' := RotatedShape(left, Simple(m[n].balance, left), a, p, b, n, c);
            Bal(r, t') && Height(t') == Height(a) + if m[n].balance == 0 then 3 else 2
    ensures CtxBal(r, up, h)
  {
    hide Links, Plug, NoDup, Idx, Bal, CtxBal, Height, Mk, RotatedShape, Unrotated, RotatedNodes, Near, Far, Simple;
    RotateCtxBal(m, r, root, left, up, a, p, b, n, c, h);
    RotateBal(m, r, left, a, p, b, n, c);
  }

  /** The balances along the path above a rotation. */
  lemma {:induction false} RotateCtxBal<T>(m: seq<Node<T>>, r: seq<Node<T>>, root: nat, left: bool, up: Ctx, a: Tree,
                                           p: nat, b: Tree,
                                           n: nat, c: Tree, h: nat)
    requires Links(m, Plug(up, Unrotated(left, a, p, b, n, c)), root, 0)
        && NoDup(Idx(Plug(up, Unrotated(left, a, p, b, n, c))))
    requires 0 < n < |m| && 0 < p < |m| && Rotatable(m, n, left) && (!Simple(m[n].balance, left) ==> b.Bin?)
    requires RotatedNodes(m, r, n, p, left)
    requires CtxBal(m, up, h)
    ensures CtxBal(r, up, h) && (b.Bin? ==> Near(m[n], left) == b.i) && NoDup(Idx(Unrotated(left, a, p, b, n, c)))
  {
    var t := Unrotated(left, a, p, b, n, c);
    RootOfMk(left, a, p, Mk(left, b, n, c));
    assert RootOf(t) == p;
    hide Links, CtxLinks, Plug, NoDup, Idx, CtxBal, Before, After, Mk, Unrotated, RootOf, RotatedNodes, Near, Far,
        Simple, Max;
    PlugLinks(m, up, t, root);
    NoDupPlug(up, t);
    UnrotatedParts(m, left, a, p, b, n, c, Above(up));
    CtxBalRange(m, up, h);
    RotatedKeeps(m, r, n, p, left, Before(up));
    RotatedKeeps(m, r, n, p, left, After(up));
    CtxBalFrame(m, r, up, h);
  }

  lemma {:induction false} RotatedKeeps<T>(m: seq<Node<T>>, r: seq<Node<T>>, n: nat, p: nat, left: bool, s: seq<nat>)
    requires n < |m| && p < |m| && Near(m[n], left) < |m| && RotatedNodes(m, r, n, p, left)
    requires n !in s && p !in s && (Simple(m[n].balance, left) || Near(m[n], left) !in s)
    requires forall x :: x in s ==> x < |m|
    ensures SameBalance(m, r, s)
  {
  }

  /** A path is a hole on the far side of the slot above it. */
  lemma {:induction false} HoleOf(c: Ctx) returns (a: Tree)
    requires !c.Top?
    ensures c == Hole(c.InRight?, c.up, a, c.i)
  {
    a := if c.InRight? then c.l else c.r;
  }

  lemma {:induction false} GrownTop<T>(m: seq<Node<T>>, root: nat, c: Ctx, t: Tree)
    requires Grown(m, root, c, t) && Above(c) == 0
    ensures Whole(m, root, Plug(c, t))
  {
    GrownSides(m, root, c, t);
    GrowTop(m, root, t);
  }

  lemma {:induction false} SameDataRefl<T>(m: seq<Node<T>>)
    ensures SameData(m, m)
  {
  }

  lemma {:induction false} SameDataTrans<T>(m: seq<Node<T>>, r: seq<Node<T>>, s: seq<Node<T>>)
    requires SameData(m, r) && SameData(r, s)
    ensures SameData(m, s)
  {
  }

  lemma {:induction false} SameDataBalance<T>(m: seq<Node<T>>, r: seq<Node<T>>, p: nat, v: int)
    requires SameData(m, r) && p < |r|
    ensures SameData(m, SetBalance(r, p, v))
  {
  }
}
