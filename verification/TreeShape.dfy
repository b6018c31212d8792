/** Binary trees laid out in an array of nodes: shapes, one-hole contexts, the parent and
    child links that represent them, heights and balances. */
module TreeShape {
  import opened SlotLists

  /** A slot of the node array; index 0 is the null node. */
  datatype Node<T> = Node(active: bool, balance: int, parent: nat, left: nat, right: nat, data: T)

  /** The shape of a tree over slot indices. */
  datatype Tree = Nil | Bin(l: Tree, i: nat, r: Tree)

  /** A path to a subtree: the tree with a hole in it. */
  datatype Ctx = Top | InLeft(up: Ctx, i: nat, r: Tree) | InRight(up: Ctx, l: Tree, i: nat)

  // ------------------------------------------------------------------ shapes

  /** The slots in order. */
  function Idx(t: Tree): seq<nat> {
    match t
    case Nil => []
    case Bin(l, i, r) => Idx(l) + [i] + Idx(r)
  }

  function Plug(c: Ctx, t: Tree): Tree {
    match c
    case Top => t
    case InLeft(up, i, r) => Plug(up, Bin(t, i, r))
    case InRight(up, l, i) => Plug(up, Bin(l, i, t))
  }

  /** How many slots lie on the path to the hole. */
  function Steps(c: Ctx): nat {
    match c
    case Top => 0
    case InLeft(up, _, _) => Steps(up) + 1
    case InRight(up, _, _) => Steps(up) + 1
  }

  /** The slots in order before the hole. */
  function Before(c: Ctx): seq<nat> {
    match c
    case Top => []
    case InLeft(up, _, _) => Before(up)
    case InRight(up, l, i) => Before(up) + (Idx(l) + [i])
  }

  /** The slots in order after the hole. */
  function After(c: Ctx): seq<nat> {
    match c
    case Top => []
    case InLeft(up, i, r) => ([i] + Idx(r)) + After(up)
    case InRight(up, _, _) => After(up)
  }

  /** The slot above the hole, 0 at the root. */
  function Above(c: Ctx): nat { if c.Top? then 0 else c.i }

  lemma {:induction false} IdxPlug(c: Ctx, t: Tree)
    ensures Idx(Plug(c, t)) == Before(c) + Idx(t) + After(c)
    decreases c
  {
    match c
    case Top =>
    case InLeft(up, i, r) =>
      IdxPlug(up, Bin(t, i, r));
    case InRight(up, l, i) =>
      IdxPlug(up, Bin(l, i, t));
  }

  lemma InBin(l: Tree, i: nat, r: Tree)
    ensures Subset(Idx(l), Idx(Bin(l, i, r))) && Subset(Idx(r), Idx(Bin(l, i, r))) && i in Idx(Bin(l, i, r))
    ensures forall x :: x in Idx(Bin(l, i, r)) ==> x in Idx(l) || x == i || x in Idx(r)
    ensures |Idx(Bin(l, i, r))| == |Idx(l)| + 1 + |Idx(r)|
  {
  }

  lemma InCtx(c: Ctx)
    ensures c.InLeft? ==>
        Before(c) == Before(c.up) && Subset(After(c.up), After(c)) && Subset(Idx(c.r), After(c)) && c.i in After(c)
    ensures c.InRight? ==>
        After(c) == After(c.up) && Subset(Before(c.up), Before(c)) && Subset(Idx(c.l), Before(c)) && c.i in Before(c)
  {
  }

  /** Distinct slots in a node: the subtrees and the root are apart from each other. */
  lemma NoDupBin(l: Tree, i: nat, r: Tree)
    ensures NoDup(Idx(Bin(l, i, r))) <==>
              NoDup(Idx(l)) && NoDup(Idx(r)) && i !in Idx(l) && i !in Idx(r) && Disjoint(Idx(l), Idx(r))
  {
    NoDupParts(Idx(l) + [i], Idx(r));
    NoDupParts(Idx(l), [i]);
    assert forall x :: x in Idx(l) + [i] <==> x in Idx(l) || x == i;
  }

  /** Distinct slots in a plugged context. */
  lemma NoDupPlug(c: Ctx, t: Tree)
    requires NoDup(Idx(Plug(c, t)))
    ensures NoDup(Idx(t)) && Disjoint(Idx(t), Before(c)) && Disjoint(Idx(t), After(c)) && Disjoint(Before(c), After(c))
    ensures NoDup(Before(c)) && NoDup(After(c))
  {
    IdxPlug(c, t);
    NoDupParts(Before(c) + Idx(t), After(c));
    NoDupParts(Before(c), Idx(t));
  }

  // ------------------------------------------------------------------ links

  /** Slot `i` and what hangs below it represent `t`, with `p` above. */
  ghost predicate Links<T>(m: seq<Node<T>>, t: Tree, i: nat, p: nat) {
    match t
    case Nil => i == 0
    case Bin(l, j, r) =>
      && i == j && 0 < j < |m| && m[j].active && m[j].parent == p
      && Links(m, l, m[j].left, j) && Links(m, r, m[j].right, j)
  }

  /** The path above slot `i` represents `c`, up to the root slot. */
  ghost predicate CtxLinks<T>(m: seq<Node<T>>, c: Ctx, i: nat, root: nat) {
    match c
    case Top => i == root
    case InLeft(up, j, r) =>
      && 0 < j < |m| && m[j].active && m[j].left == i && m[j].parent == Above(up)
      && Links(m, r, m[j].right, j) && CtxLinks(m, up, j, root)
    case InRight(up, l, j) =>
      && 0 < j < |m| && m[j].active && m[j].right == i && m[j].parent == Above(up)
      && Links(m, l, m[j].left, j) && CtxLinks(m, up, j, root)
  }

  lemma {:induction false} LinksPlug<T>(m: seq<Node<T>>, c: Ctx, t: Tree, i: nat, root: nat)
    ensures CtxLinks(m, c, i, root) && Links(m, t, i, Above(c)) ==> Links(m, Plug(c, t), root, 0)
    decreases c
  {
    match c
    case Top =>
    case InLeft(up, j, r) => LinksPlug(m, up, Bin(t, j, r), j, root);
    case InRight(up, l, j) => LinksPlug(m, up, Bin(l, j, t), j, root);
  }

  /** The slot at the top of a tree. */
  function RootOf(t: Tree): nat { if t.Nil? then 0 else t.i }

  lemma LinksRoot<T>(m: seq<Node<T>>, t: Tree, i: nat, p: nat)
    requires Links(m, t, i, p)
    ensures i == RootOf(t) && (i == 0 <==> t.Nil?)
  {
  }

  lemma {:induction false} PlugLinks<T>(m: seq<Node<T>>, c: Ctx, t: Tree, root: nat)
    requires Links(m, Plug(c, t), root, 0)
    ensures CtxLinks(m, c, RootOf(t), root) && Links(m, t, RootOf(t), Above(c))
    decreases c
  {
    match c
    case Top =>
    case InLeft(up, j, r) => PlugLinks(m, up, Bin(t, j, r), root);
    case InRight(up, l, j) => PlugLinks(m, up, Bin(l, j, t), root);
  }

  /** The links of the slots in `s` are the same in both arrays. */
  ghost predicate SameLinks<T>(m: seq<Node<T>>, m': seq<Node<T>>, s: seq<nat>) {
    forall i :: i in s ==> i < |m| && i < |m'| && m[i].active == m'[i].active
                           && m[i].parent == m'[i].parent && m[i].left == m'[i].left && m[i].right == m'[i].right
  }

  ghost predicate SameBalance<T>(m: seq<Node<T>>, m': seq<Node<T>>, s: seq<nat>) {
    forall i :: i in s ==> i < |m| && i < |m'| && m[i].balance == m'[i].balance
  }

  lemma FewerBalances<T>(m: seq<Node<T>>, m': seq<Node<T>>, s: seq<nat>, t: seq<nat>)
    requires SameBalance(m, m', t) && Subset(s, t)
    ensures SameBalance(m, m', s)
  {
  }

  lemma SameBalanceAt<T>(m: seq<Node<T>>, m': seq<Node<T>>, s: seq<nat>, i: nat)
    requires SameBalance(m, m', s) && i in s
    ensures i < |m| && i < |m'| && m[i].balance == m'[i].balance
  {
  }

  lemma {:induction false} LinksFrame<T>(m: seq<Node<T>>, m': seq<Node<T>>, t: Tree, i: nat, p: nat)
    requires Links(m, t, i, p) && SameLinks(m, m', Idx(t))
    ensures Links(m', t, i, p)
    decreases t
  {
    match t
    case Nil =>
    case Bin(l, j, r) =>
      hide SameLinks, Subset, Idx;
      InBin(l, j, r);
      LinksFrame(m, m', l, m[j].left, j);
      LinksFrame(m, m', r, m[j].right, j);
  }

  lemma {:induction false} CtxLinksFrame<T>(m: seq<Node<T>>, m': seq<Node<T>>, c: Ctx, i: nat, root: nat)
    requires CtxLinks(m, c, i, root) && SameLinks(m, m', Before(c)) && SameLinks(m, m', After(c))
    ensures CtxLinks(m', c, i, root)
    decreases c
  {
    match c
    case Top =>
    case InLeft(up, j, r) =>
      hide SameLinks, Subset, Idx, Before, After;
      InCtx(c);
      LinksFrame(m, m', r, m[j].right, j);
      CtxLinksFrame(m, m', up, j, root);
    case InRight(up, l, j) =>
      hide SameLinks, Subset, Idx, Before, After;
      InCtx(c);
      LinksFrame(m, m', l, m[j].left, j);
      CtxLinksFrame(m, m', up, j, root);
  }

  /** Every slot of a represented tree is in range, active and not 0. */
  lemma {:induction false} LinksActive<T>(m: seq<Node<T>>, t: Tree, i: nat, p: nat)
    requires Links(m, t, i, p)
    ensures forall x :: x in Idx(t) ==> 0 < x < |m| && m[x].active
    decreases t
  {
    match t
    case Nil =>
    case Bin(l, j, r) =>
      LinksActive(m, l, m[j].left, j);
      LinksActive(m, r, m[j].right, j);
  }

  // ------------------------------------------------------------------ focusing

  /** Every slot of a tree can be brought to the hole. */
  lemma {:induction false} Focus(t: Tree, c0: Ctx, x: nat) returns (c: Ctx, l: Tree, r: Tree)
    requires x in Idx(t)
    ensures Plug(c, Bin(l, x, r)) == Plug(c0, t)
    decreases t
  {
    var Bin(tl, i, tr) := t;
    if x == i {
      c, l, r := c0, tl, tr;
    } else if x in Idx(tl) {
      c, l, r := Focus(tl, InLeft(c0, i, tr), x);
    } else {
      c, l, r := Focus(tr, InRight(c0, tl, i), x);
    }
  }

  // ------------------------------------------------------------------ heights and balances

  function Max(x: nat, y: nat): nat { if x > y then x else y }

  function Height(t: Tree): nat {
    match t
    case Nil => 0
    case Bin(l, _, r) => 1 + Max(Height(l), Height(r))
  }

  /** Stored balances are right height minus left height, and within one of each other. */
  ghost predicate Bal<T>(m: seq<Node<T>>, t: Tree) {
    match t
    case Nil => true
    case Bin(l, i, r) =>
      && i < |m| && m[i].balance == Height(r) - Height(l) && -1 <= m[i].balance <= 1
      && Bal(m, l) && Bal(m, r)
  }

  /** Balances along the path are right for a subtree of height `h` in the hole. */
  ghost predicate CtxBal<T>(m: seq<Node<T>>, c: Ctx, h: nat) {
    match c
    case Top => true
    case InLeft(up, i, r) =>
      && i < |m| && m[i].balance == Height(r) - h && -1 <= m[i].balance <= 1
      && Bal(m, r) && CtxBal(m, up, 1 + Max(h, Height(r)))
    case InRight(up, l, i) =>
      && i < |m| && m[i].balance == h - Height(l) && -1 <= m[i].balance <= 1
      && Bal(m, l) && CtxBal(m, up, 1 + Max(Height(l), h))
  }

  lemma {:induction false} BalPlug<T>(m: seq<Node<T>>, c: Ctx, t: Tree)
    ensures Bal(m, Plug(c, t)) <==> CtxBal(m, c, Height(t)) && Bal(m, t)
    decreases c
  {
    hide Max;
    match c
    case Top =>
    case InLeft(up, i, r) => BalPlug(m, up, Bin(t, i, r));
    case InRight(up, l, i) => BalPlug(m, up, Bin(l, i, t));
  }

  lemma {:induction false} BalFrame<T>(m: seq<Node<T>>, m': seq<Node<T>>, t: Tree)
    requires Bal(m, t) && SameBalance(m, m', Idx(t))
    ensures Bal(m', t)
    decreases t
  {
    match t
    case Nil =>
    case Bin(l, i, r) =>
      hide SameBalance, Subset, Idx;
      InBin(l, i, r);
      SameBalanceAt(m, m', Idx(t), i);
      FewerBalances(m, m', Idx(l), Idx(t));
      FewerBalances(m, m', Idx(r), Idx(t));
      BalFrame(m, m', l);
      BalFrame(m, m', r);
  }

  lemma {:induction false} CtxBalFrame<T>(m: seq<Node<T>>, m': seq<Node<T>>, c: Ctx, h: nat)
    requires CtxBal(m, c, h) && SameBalance(m, m', Before(c)) && SameBalance(m, m', After(c))
    ensures CtxBal(m', c, h)
    decreases c
  {
    hide SameBalance, Subset, Idx, Before, After, Height, Max, Bal;
    match c
    case Top =>
    case InLeft(up, i, r) =>
      InCtx(c);
      SameBalanceAt(m, m', After(c), i);
      FewerBalances(m, m', Idx(r), After(c));
      FewerBalances(m, m', After(up), After(c));
      BalFrame(m, m', r);
      CtxBalFrame(m, m', up, 1 + Max(h, Height(r)));
    case InRight(up, l, i) =>
      InCtx(c);
      SameBalanceAt(m, m', Before(c), i);
      FewerBalances(m, m', Idx(l), Before(c));
      FewerBalances(m, m', Before(up), Before(c));
      BalFrame(m, m', l);
      CtxBalFrame(m, m', up, 1 + Max(Height(l), h));
  }

  // ------------------------------------------------------------------ the AVL bound

  function Fib(n: nat): nat { if n < 2 then n else Fib(n - 1) + Fib(n - 2) }

  lemma {:induction false} FibMono(a: nat, b: nat)
    requires a <= b
    ensures Fib(a) <= Fib(b)
    decreases b
  {
    if a < b {
      FibMono(a, b - 1);
      assert b == 1 || Fib(b) == Fib(b - 1) + Fib(b - 2);
    }
  }

  lemma FibNext(n: nat)
    ensures Fib(0) == 0 && Fib(1) == 1 && Fib(n + 2) == Fib(n + 1) + Fib(n)
  {
  }

  /** A balanced tree of height `h` has at least Fib(h + 2) - 1 nodes. */
  lemma {:induction false} AvlBound<T>(m: seq<Node<T>>, t: Tree)
    requires Bal(m, t)
    ensures Fib(Height(t) + 2) <= |Idx(t)| + 1
    decreases t
  {
    hide Fib, Idx;
    FibNext(Height(t));
    match t
    case Nil =>
    case Bin(l, i, r) =>
      InBin(l, i, r);
      AvlBound(m, l);
      AvlBound(m, r);
      BalHeights(m, l, i, r);
      hide Bal, Height;
      FibMono(Height(t), Height(l) + 2);
      FibMono(Height(t), Height(r) + 2);
  }

  lemma BalHeights<T>(m: seq<Node<T>>, l: Tree, i: nat, r: Tree)
    requires Bal(m, Bin(l, i, r))
    ensures var h := Height(Bin(l, i, r));
            && (Height(l) + 1 == h || Height(r) + 1 == h)
            && h <= Height(l) + 2 && h <= Height(r) + 2
  {
  }
}
