/** Heights and stored balances through insertion, deletion and rotation. */
module TreeBalance {
  import opened SlotLists
  import opened TreeShape
  import opened TreeRotate
  import opened TreeSteps

  /** A balance seen from the far side. */
  function Tilt(left: bool, b: int): int { if left then b else -b }

  /** A path whose last step goes to the far child of `p`, past the near subtree `a`. */
  function Hole(left: bool, up: Ctx, a: Tree, p: nat): Ctx {
    if left then InRight(up, a, p) else InLeft(up, p, a)
  }

  /** The array `m` represents the balanced tree `t`. */
  ghost predicate Whole<T>(m: seq<Node<T>>, root: nat, t: Tree) {
    Links(m, t, root, 0) && NoDup(Idx(t)) && Bal(m, t)
  }

  lemma {:induction false} HolePlug(left: bool, up: Ctx, a: Tree, p: nat, t: Tree)
    ensures Plug(Hole(left, up, a, p), t) == Plug(up, Mk(left, a, p, t))
    ensures Above(Hole(left, up, a, p)) == p
  {
  }

  lemma {:induction false} MkBal<T>(m: seq<Node<T>>, left: bool, a: Tree, i: nat, b: Tree)
    ensures Bal(m, Mk(left, a, i, b)) <==>
              i < |m| && Tilt(left, m[i].balance) == Height(b) - Height(a) && -1 <= Height(b) - Height(a) <= 1
                  && Bal(m, a) && Bal(m, b)
    ensures Height(Mk(left, a, i, b)) == 1 + Max(Height(a), Height(b))
  {
  }

  lemma {:induction false} HoleBal<T>(m: seq<Node<T>>, left: bool, up: Ctx, a: Tree, p: nat, h: nat)
    ensures CtxBal(m, Hole(left, up, a, p), h) <==>
              p < |m| && Tilt(left, m[p].balance) == h - Height(a) && -1 <= h - Height(a) <= 1
              && Bal(m, a) && CtxBal(m, up, 1 + Max(Height(a), h))
  {
  }

  // ------------------------------------------------------------------ one balance

  lemma {:induction false} LinksSetBalance<T>(m: seq<Node<T>>, t: Tree, i: nat, q: nat, p: nat, v: int)
    requires Links(m, t, i, q) && p < |m|
    ensures Links(SetBalance(m, p, v), t, i, q)
  {
    hide Links, Idx;
    LinksRange(m, t, i, q);
    LinksFrame(m, SetBalance(m, p, v), t, i, q);
  }

  lemma {:induction false} BalSetBalance<T>(m: seq<Node<T>>, t: Tree, p: nat, v: int)
    requires Bal(m, t) && p < |m| && p !in Idx(t)
    ensures Bal(SetBalance(m, p, v), t)
  {
    BalRange(m, t);
    hide Bal, Idx;
    BalFrame(m, SetBalance(m, p, v), t);
  }

  lemma {:induction false} BalRange<T>(m: seq<Node<T>>, t: Tree)
    requires Bal(m, t)
    ensures forall x :: x in Idx(t) ==> x < |m|
    decreases t
  {
    match t
    case Nil =>
    case Bin(l, i, r) =>
      BalRange(m, l);
      BalRange(m, r);
  }

  lemma {:induction false} CtxBalSetBalance<T>(m: seq<Node<T>>, c: Ctx, h: nat, p: nat, v: int)
    requires CtxBal(m, c, h) && p < |m| && p !in Before(c) && p !in After(c)
    ensures CtxBal(SetBalance(m, p, v), c, h)
  {
    CtxBalRange(m, c, h);
    hide CtxBal, Before, After;
    CtxBalFrame(m, SetBalance(m, p, v), c, h);
  }

  lemma {:induction false} CtxSlots(c: Ctx)
    ensures c.Top? ==> Before(c) == [] && After(c) == []
    ensures c.InLeft? ==>
        Before(c) == Before(c.up) && forall x :: x in After(c) ==> x == c.i || x in Idx(c.r) || x in After(c.up)
    ensures c.InRight? ==>
        After(c) == After(c.up) && forall x :: x in Before(c) ==> x == c.i || x in Idx(c.l) || x in Before(c.up)
  {
  }

  lemma {:induction false} CtxBalRange<T>(m: seq<Node<T>>, c: Ctx, h: nat)
    requires CtxBal(m, c, h)
    ensures forall x :: x in Before(c) || x in After(c) ==> x < |m|
    decreases c
  {
    CtxSlots(c);
    hide Idx, Before, After, Bal, Max, Height;
    match c
    case Top =>
    case InLeft(up, i, r) =>
      BalRange(m, r);
      CtxBalRange(m, up, 1 + Max(h, Height(r)));
    case InRight(up, l, i) =>
      BalRange(m, l);
      CtxBalRange(m, up, 1 + Max(Height(l), h));
  }

  /** Setting the balance of the slot between a path and two subtrees. */
  lemma {:induction false} OneBalance<T>(m: seq<Node<T>>, up: Ctx, h: nat, a: Tree, t: Tree, p: nat, v: int)
    requires CtxBal(m, up, h) && Bal(m, a) && Bal(m, t) && p < |m|
    requires p !in Before(up) && p !in After(up) && p !in Idx(a) && p !in Idx(t)
    ensures var m1 := SetBalance(m, p, v);
            CtxBal(m1, up, h) && Bal(m1, a) && Bal(m1, t)
  {
    hide Bal, CtxBal, Before, After, Idx;
    BalSetBalance(m, a, p, v);
    BalSetBalance(m, t, p, v);
    CtxBalSetBalance(m, up, h, p, v);
  }

  /** The slot above the far subtree `t`, and what is apart from it. */
  lemma {:induction false} HoleParts(left: bool, up: Ctx, a: Tree, p: nat, t: Tree)
    requires NoDup(Idx(Plug(Hole(left, up, a, p), t)))
    ensures p !in Before(up) && p !in After(up) && p !in Idx(a) && p !in Idx(t) && Disjoint(Idx(a), Idx(t))
    ensures Plug(Hole(left, up, a, p), t) == Plug(up, Mk(left, a, p, t))
  {
    HolePlug(left, up, a, p, t);
    NoDupPlug(up, Mk(left, a, p, t));
    MkIdx(left, a, p, t);
  }

  // ------------------------------------------------------------------ rotation

  /** A rotation of a subtree whose far side is two higher leaves a balanced subtree; it is
      one lower than before unless the far child was even. */
  lemma {:induction false} RotateBal<T>(m: seq<Node<T>>, r: seq<Node<T>>, left: bool, a: Tree, p: nat, b: Tree,
                                        n: nat, c: Tree)
    requires n < |m| && p < |m| && Near(m[n], left) < |m| && RotatedNodes(m, r, n, p, left)
    requires NoDup(Idx(Unrotated(left, a, p, b, n, c)))
    requires Bal(m, a) && Bal(m, Mk(left, b, n, c)) && Height(Mk(left, b, n, c)) == Height(a) + 2
    requires !Simple(m[n].balance, left) && b.Bin? ==> Near(m[n], left) == b.i
    ensures !Simple(m[n].balance, left) ==> b.Bin?
    ensures var t' := RotatedShape(left, Simple(m[n].balance, left), a, p, b, n, c);
            Bal(r, t') && Height(t') == Height(a) + if m[n].balance == 0 then 3 else 2
  {
    MkIdx(left, a, p, Mk(left, b, n, c));
    MkIdx(left, b, n, c);
    MkBal(m, left, b, n, c);
    hide Idx, NoDup, Mk, Bal;
    if Simple(m[n].balance, left) {
      RotateBalSimple(m, r, left, a, p, b, n, c);
    } else {
      assert b.Bin?;
      BinMk(left, b);
      var x, s, y := if left then b.l else b.r, b.i, if left then b.r else b.l;
      MkIdx(left, x, s, y);
      MkBal(m, left, x, s, y);
      RotateBalDouble(m, r, left, a, p, x, s, y, n, c);
    }
  }

  lemma {:induction false} KeepBal<T>(m: seq<Node<T>>, r: seq<Node<T>>, t: Tree, n: nat, p: nat, s: nat)
    requires Bal(m, t) && |r| == |m| && n !in Idx(t) && p !in Idx(t) && s !in Idx(t)
    requires forall z :: 0 <= z < |m| && z != n && z != p && z != s ==> r[z].balance == m[z].balance
    ensures Bal(r, t)
  {
    BalRange(m, t);
    hide Bal, Idx;
    BalFrame(m, r, t);
  }

  lemma {:induction false} RotateBalSimple<T>(m: seq<Node<T>>, r: seq<Node<T>>, left: bool, a: Tree, p: nat, b: Tree,
                                              n: nat, c: Tree)
    requires n < |m| && p < |m| && Near(m[n], left) < |m| && RotatedNodes(m, r, n, p, left)
        && Simple(m[n].balance, left)
    requires n !in Idx(a) && n !in Idx(b) && n !in Idx(c) && p !in Idx(a) && p !in Idx(b) && p !in Idx(c) && n != p
    requires Bal(m, a) && Bal(m, b) && Bal(m, c) && 1 + Max(Height(b), Height(c)) == Height(a) + 2
    requires Tilt(left, m[n].balance) == Height(c) - Height(b) <= 1
    ensures var t' := SimpleShape(left, a, p, b, n, c);
            Bal(r, t') && Height(t') == Height(a) + if m[n].balance == 0 then 3 else 2
  {
    hide Bal, Idx, Mk, Height;
    KeepBal(m, r, a, n, p, p);
    KeepBal(m, r, b, n, p, p);
    KeepBal(m, r, c, n, p, p);
    MkBal(r, left, a, p, b);
    MkBal(r, left, Mk(left, a, p, b), n, c);
  }

  lemma {:induction false} RotateBalDouble<T>(m: seq<Node<T>>, r: seq<Node<T>>, left: bool, a: Tree, p: nat, x: Tree,
                                              s: nat, y: Tree,
                                              n: nat, c: Tree)
    requires n < |m| && p < |m| && s < |m| && Near(m[n], left) == s && RotatedNodes(m, r, n, p, left)
        && !Simple(m[n].balance, left)
    requires n !in Idx(a) && n !in Idx(x) && n !in Idx(y) && n !in Idx(c) && p !in Idx(a) && p !in Idx(x)
        && p !in Idx(y) && p !in Idx(c)
    requires s !in Idx(a) && s !in Idx(x) && s !in Idx(y) && s !in Idx(c) && n != p && n != s && p != s
    requires Bal(m, a) && Bal(m, x) && Bal(m, y) && Bal(m, c) && Height(c) == Height(a)
        && 1 + Max(Height(x), Height(y)) == Height(a) + 1
    requires Tilt(left, m[s].balance) == Height(y) - Height(x) && -1 <= Height(y) - Height(x) <= 1
    ensures var t' := DoubleShape(left, a, p, x, s, y, n, c);
            Bal(r, t') && Height(t') == Height(a) + 2
  {
    hide Bal, Idx, Mk, Height;
    KeepBal(m, r, a, n, p, s);
    KeepBal(m, r, x, n, p, s);
    KeepBal(m, r, y, n, p, s);
    KeepBal(m, r, c, n, p, s);
    MkBal(r, left, a, p, x);
    MkBal(r, left, y, n, c);
    MkBal(r, left, Mk(left, a, p, x), s, Mk(left, y, n, c));
  }
}
