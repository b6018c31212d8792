/** The ordered set: an AVL tree over an array of slots. */
module TreeSets {
  import opened Comparators
  import opened SlotLists
  import opened TreeShape
  import opened TreeRotate
  import opened TreeSteps
  import opened TreeBalance
  import opened TreeGrow
  import opened TreeShrink
  import opened TreeReplace
  import opened TreeOrder
  import opened TreeSpec
  import opened TreeStore

  const UINT32_MAX: nat := 0xFFFF_FFFF
  const UINT32_RANGE: nat := 0x1_0000_0000

  class TreeSet<T(!new)> {
    const cmp: (T, T) -> int
    var root: nat
    var capacity: nat
    var next: nat
    var count: nat
    var node: seq<Node<T>>
    ghost var tree: Tree

    ghost predicate Valid()
      reads this
    {
      Good(cmp, node, root, count, next, capacity, tree, next)
    }

    /** What searching relies on. */
    ghost predicate Searchable()
      reads this
    {
      TotalPreorder(cmp) && Whole(node, root, tree) && Ordered(cmp, node, Idx(tree))
    }

    /** The values in ascending order: the set this object stands for. */
    ghost function Values(): seq<T>
      requires Valid()
      reads this
    {
      Data(node, Idx(tree))
    }

    // ---------------------------------------------------------------- walking

    /** The lowest slot of the subtree at `start`. */
    method MinNode(start: nat, ghost c0: Ctx, ghost t0: Tree) returns (i: nat)
      requires Focused(node, tree, c0, t0, start)
      ensures i == FirstOr0(Idx(t0)) && (i != 0 <==> start != 0) && (i != 0 ==> i < |node| && node[i].left == 0)
    {
      hide Idx, Focused, FirstOr0;
      i := start;
      ghost var c, t := c0, t0;
      Bottom(node, tree, c, t, i);
      if i != 0 {
        GoDown(node, tree, c, t, i);
        while node[i].left != 0
          invariant i != 0 && i < |node| && Focused(node, tree, c, t, i)
          invariant FirstOr0(Idx(t)) == FirstOr0(Idx(t0))
          decreases t
        {
          GoDown(node, tree, c, t, i);
          FirstOfBin(t.l, i, t.r);
          i, c, t := node[i].left, InLeft(c, i, t.r), t.l;
          GoDown(node, tree, c, t, i);
        }
        GoDown(node, tree, c, t, i);
        FirstOfBin(t.l, i, t.r);
      } else {
        EmptyEnds();
      }
    }

    /** The highest slot of the subtree at `start`. */
    method MaxNode(start: nat, ghost c0: Ctx, ghost t0: Tree) returns (i: nat)
      requires Focused(node, tree, c0, t0, start)
      ensures i == LastOr0(Idx(t0))
    {
      hide Idx, Focused, LastOr0;
      i := start;
      ghost var c, t := c0, t0;
      Bottom(node, tree, c, t, i);
      if i != 0 {
        GoDown(node, tree, c, t, i);
        while node[i].right != 0
          invariant i != 0 && i < |node| && Focused(node, tree, c, t, i)
          invariant LastOr0(Idx(t)) == LastOr0(Idx(t0))
          decreases t
        {
          GoDown(node, tree, c, t, i);
          FirstOfBin(t.l, i, t.r);
          i, c, t := node[i].right, InRight(c, t.l, i), t.r;
          GoDown(node, tree, c, t, i);
        }
        GoDown(node, tree, c, t, i);
        FirstOfBin(t.l, i, t.r);
      } else {
        EmptyEnds();
      }
    }

    /** The iterator's step to the following slot. */
    method Next(start: nat) returns (i: nat)
      requires Valid() && start in Idx(tree)
      ensures Follows(Idx(tree), start, i)
    {
      hide Idx, Focused, Follows, Precedes, FirstOr0, LastOr0, Before, After, Plug, Bal, Ordered, Slots, CtxLinks,
          Links;
      i := start;
      ghost var c, t := FocusSlot(node, root, tree, i);
      GoDown(node, tree, c, t, i);
      FocusedPlug(node, tree, c, t, i);
      Neighbours(c, t.l, i, t.r);
      var right := node[i].right;
      if right != 0 {
        i := MinNode(right, InRight(c, t.l, i), t.r);
      } else {
        ghost var s := FirstOr0(After(c));
        while i != 0
          invariant i != 0 ==> Focused(node, tree, c, t, i) && CtxLinks(node, c, i, root) && FirstOr0(After(c)) == s
          invariant i == 0 ==> s == 0
          decreases c, i
        {
          var last := i;
          GoUp(node, root, tree, c, t, i);
          ClimbEnds(c);
          i := node[last].parent;
          if node[i].left == last {
            break;
          }
          if !c.Top? {
            c, t := c.up, Bin(c.l, c.i, t);
          }
        }
      }
    }

    /** The iterator's step to the preceding slot. */
    method Prev(start: nat) returns (i: nat)
      requires Valid() && start in Idx(tree)
      ensures Precedes(Idx(tree), start, i)
    {
      hide Idx, Focused, Follows, Precedes, FirstOr0, LastOr0, Before, After, Plug, Bal, Ordered, Slots, CtxLinks,
          Links;
      i := start;
      ghost var c, t := FocusSlot(node, root, tree, i);
      GoDown(node, tree, c, t, i);
      FocusedPlug(node, tree, c, t, i);
      Neighbours(c, t.l, i, t.r);
      var left := node[i].left;
      if left != 0 {
        i := MaxNode(left, InLeft(c, i, t.r), t.l);
      } else {
        ghost var s := LastOr0(Before(c));
        while i != 0
          invariant i != 0 ==> Focused(node, tree, c, t, i) && CtxLinks(node, c, i, root) && LastOr0(Before(c)) == s
          invariant i == 0 ==> s == 0
          decreases c, i
        {
          var last := i;
          GoUp(node, root, tree, c, t, i);
          ClimbEnds(c);
          i := node[last].parent;
          if node[i].right == last {
            break;
          }
          if !c.Top? {
            c, t := c.up, Bin(t, c.i, c.r);
          }
        }
      }
    }

    /** The slot of the lowest value, 0 when the set is empty. */
    method Begin() returns (i: nat)
      requires Valid()
      ensures i == FirstOr0(Idx(tree))
    {
      i := MinNode(root, Top, tree);
    }

    /** The slot of the highest value, 0 when the set is empty. */
    method RBegin() returns (i: nat)
      requires Valid()
      ensures i == LastOr0(Idx(tree))
    {
      i := MaxNode(root, Top, tree);
    }

    // ---------------------------------------------------------------- searching

    /** Searches for a value: the slot of an equal value, or the slot below which it belongs
        and the last comparison. `hole` is the place of the slot found or of the new leaf; one
        value is compared at every slot on the path to it. */
    method ContainsNode(value: T) returns (found: bool, i: nat, c: int, ghost hole: Ctx, ghost depth: nat)
      requires Searchable()
      ensures depth == Steps(hole) + (if found then 1 else 0) && depth <= Height(tree)
      ensures found ==> i in Idx(tree) && i < |node| && cmp(node[i].data, value) == 0
      ensures found ==> exists t :: tree == Plug(hole, t) && RootOf(t) == i
      ensures !found ==> tree == Plug(hole, Nil) && i == Above(hole) && Cut(cmp, node, hole, value)
      ensures !found && root != 0 ==> c != 0 && hole.InRight? == (c < 0) && !hole.Top?
      ensures root == 0 ==> !found && c == 0
    {
      hide Idx, Focused, Ordered, Slots, Cut, Bal, Links, Searching, TotalPreorder, Height;
      i, c, found, depth := root, 0, false, 0;
      ghost var x, t := Top, tree;
      SearchStart(cmp, node, tree, root, value);
      SearchingAt(cmp, node, tree, x, t, i, value);
      hole := Top;
      if i != 0 {
        while true
          invariant i != 0 && Searching(cmp, node, tree, x, t, i, value)
          invariant depth == Steps(x) && depth + Height(t) <= Height(tree)
          decreases t
        {
          SearchDown(cmp, node, tree, x, t, i, value);
          HeightDown(t);
          var e := node[i];
          c := cmp(e.data, value);
          depth := depth + 1;
          if c == 0 {
            found, hole := true, x;
            return;
          } else if c < 0 {
            if e.right == 0 {
              hole := InRight(x, t.l, i);
              SearchingAt(cmp, node, tree, hole, t.r, 0, value);
              break;
            }
            x := InRight(x, t.l, i);
            t, i := t.r, e.right;
          } else {
            if e.left == 0 {
              hole := InLeft(x, i, t.r);
              SearchingAt(cmp, node, tree, hole, t.l, 0, value);
              break;
            }
            x := InLeft(x, i, t.r);
            t, i := t.l, e.left;
          }
        }
      }
    }

    /** The slot of the greatest value less than `value`. */
    method LowerNode(value: T) returns (r: nat)
      requires Valid()
      ensures InArray(node, Idx(tree)) && IsLast(cmp, node, Idx(tree), value, true, r)
    {
      hide Idx, Focused, Ordered, Slots, Cut, Bal, Links, Searching, TotalPreorder, Before, After, LastOr0, IsLast,
          IsFirst, NoDup;
      r := 0;
      var i := root;
      ghost var x, t := Top, tree;
      SearchStart(cmp, node, tree, root, value);
      TreeSlots(cmp, node, root, tree);
      ClimbEnds(x);
      while i != 0
        invariant Searching(cmp, node, tree, x, t, i, value) && r == LastOr0(Before(x))
        decreases t
      {
        SearchDown(cmp, node, tree, x, t, i, value);
        SearchingAt(cmp, node, tree, x, t, i, value);
        var e := node[i];
        var c := cmp(e.data, value);
        if c == 0 {
          SearchFound(cmp, node, tree, x, t, i, value);
          EndsOfSum(Before(x), Idx(t.l));
          BinNonEmpty(t.l);
          if e.left != 0 {
            GoDown(node, tree, x, t, i);
            r := MaxNode(e.left, InLeft(x, i, t.r), t.l);
          }
          return;
        } else if c < 0 {
          r := i;
          x := InRight(x, t.l, i);
          t, i := t.r, e.right;
        } else {
          x := InLeft(x, i, t.r);
          t, i := t.l, e.left;
        }
        ClimbEnds(x);
      }
      SearchMissed(cmp, node, tree, x, t, value, true);
    }

    /** The slot of the greatest value not exceeding `value`. */
    method FloorNode(value: T) returns (r: nat)
      requires Valid()
      ensures InArray(node, Idx(tree)) && IsLast(cmp, node, Idx(tree), value, false, r)
    {
      hide Idx, Focused, Ordered, Slots, Cut, Bal, Links, Searching, TotalPreorder, Before, After, LastOr0, IsLast,
          IsFirst, NoDup;
      r := 0;
      var i := root;
      ghost var x, t := Top, tree;
      SearchStart(cmp, node, tree, root, value);
      TreeSlots(cmp, node, root, tree);
      ClimbEnds(x);
      while i != 0
        invariant Searching(cmp, node, tree, x, t, i, value) && r == LastOr0(Before(x))
        decreases t
      {
        SearchDown(cmp, node, tree, x, t, i, value);
        SearchingAt(cmp, node, tree, x, t, i, value);
        var e := node[i];
        var c := cmp(e.data, value);
        if c == 0 {
          SearchFound(cmp, node, tree, x, t, i, value);
          r := i;
          return;
        } else if c < 0 {
          r := i;
          x := InRight(x, t.l, i);
          t, i := t.r, e.right;
        } else {
          x := InLeft(x, i, t.r);
          t, i := t.l, e.left;
        }
        ClimbEnds(x);
      }
      SearchMissed(cmp, node, tree, x, t, value, false);
    }

    /** The slot of the least value not less than `value`. */
    method CeilNode(value: T) returns (r: nat)
      requires Valid()
      ensures InArray(node, Idx(tree)) && IsFirst(cmp, node, Idx(tree), value, true, r)
    {
      hide Idx, Focused, Ordered, Slots, Cut, Bal, Links, Searching, TotalPreorder, Before, After, FirstOr0, IsLast,
          IsFirst, NoDup;
      r := 0;
      var i := root;
      ghost var x, t := Top, tree;
      SearchStart(cmp, node, tree, root, value);
      TreeSlots(cmp, node, root, tree);
      ClimbEnds(x);
      while i != 0
        invariant Searching(cmp, node, tree, x, t, i, value) && r == FirstOr0(After(x))
        decreases t
      {
        SearchDown(cmp, node, tree, x, t, i, value);
        SearchingAt(cmp, node, tree, x, t, i, value);
        var e := node[i];
        var c := cmp(e.data, value);
        if c == 0 {
          SearchFound(cmp, node, tree, x, t, i, value);
          r := i;
          return;
        } else if c < 0 {
          x := InRight(x, t.l, i);
          t, i := t.r, e.right;
        } else {
          r := i;
          x := InLeft(x, i, t.r);
          t, i := t.l, e.left;
        }
        ClimbEnds(x);
      }
      SearchMissed(cmp, node, tree, x, t, value, true);
    }

    /** The slot of the least value greater than `value`. */
    method HigherNode(value: T) returns (r: nat)
      requires Valid()
      ensures InArray(node, Idx(tree)) && IsFirst(cmp, node, Idx(tree), value, false, r)
    {
      hide Idx, Focused, Ordered, Slots, Cut, Bal, Links, Searching, TotalPreorder, Before, After, FirstOr0, IsLast,
          IsFirst, NoDup;
      r := 0;
      var i := root;
      ghost var x, t := Top, tree;
      SearchStart(cmp, node, tree, root, value);
      TreeSlots(cmp, node, root, tree);
      ClimbEnds(x);
      while i != 0
        invariant Searching(cmp, node, tree, x, t, i, value) && r == FirstOr0(After(x))
        decreases t
      {
        SearchDown(cmp, node, tree, x, t, i, value);
        SearchingAt(cmp, node, tree, x, t, i, value);
        var e := node[i];
        var c := cmp(e.data, value);
        if c == 0 {
          SearchFound(cmp, node, tree, x, t, i, value);
          EndsOfSum(Idx(t.r), After(x));
          BinNonEmpty(t.r);
          if e.right != 0 {
            GoDown(node, tree, x, t, i);
            r := MinNode(e.right, InRight(x, t.l, i), t.r);
          }
          return;
        } else if c < 0 {
          x := InRight(x, t.l, i);
          t, i := t.r, e.right;
        } else {
          r := i;
          x := InLeft(x, i, t.r);
          t, i := t.l, e.left;
        }
        ClimbEnds(x);
      }
      SearchMissed(cmp, node, tree, x, t, value, false);
    }

    /** The slot of an equal value, or 0. */
    method Find(value: T) returns (r: nat)
      requires Valid()
      ensures r == 0 <==> !Has(cmp, Values(), value)
      ensures r != 0 ==> r in Idx(tree) && r < |node| && cmp(node[r].data, value) == 0
    {
      hide Idx, Ordered, Slots, Cut, Bal, Links, TotalPreorder, NoDup, Has, Data;
      var found, i, c, hole, _ := ContainsNode(value);
      TreeSlots(cmp, node, root, tree);
      if found {
        HasSlot(cmp, node, Idx(tree), i, value);
        r := i;
      } else {
        HasNot(cmp, node, hole, value);
        r := 0;
      }
    }

    // ---------------------------------------------------------------- rebalancing

    /** Puts `replacement` in the place of `target` below `parent`, with its children if asked. */
    method ReplaceNode(parent: nat, target: nat, replacement: nat, includeChildren: bool)
      requires parent < |node| && replacement < |node| && LinkedFrom(node, root, parent, target)
      requires includeChildren ==> Handed(node, target, replacement, parent)
      modifies `node, `root
      ensures (node, root) == Replaced(old(node), old(root), parent, target, replacement, includeChildren)
    {
      if parent == 0 {
        root := replacement;
      } else if target == node[parent].left {
        node := node[parent := node[parent].(left := replacement)];
      } else {
        assert target == node[parent].right;
        node := node[parent := node[parent].(right := replacement)];
      }
      assert (node, root) == Relink(old(node), old(root), parent, target, replacement);
      if replacement != 0 {
        node := SetParent(node, replacement, parent);
        if includeChildren {
          node := SetBalance(node, replacement, node[target].balance);
          node := Handover(node, true, target, replacement);
          node := Handover(node, false, target, replacement);
        }
      }
    }

    /** Rotates `n` over its parent `p`, or the near child of `n` over both; tells whether the
        height stays. */
    method Rotate(n: nat, p: nat, left: bool) returns (subroot: nat, level: bool)
      requires 0 < n < |node| && 0 < p < |node| && Rotatable(node, n, left) && Turnable(node, root, n, p, left)
      modifies `node, `root
      ensures (node, root) == RotateAll(old(node), old(root), old(node[p].parent), n, p, left)
      ensures subroot == Raised(old(node), n, left) && subroot != 0 && (level <==> old(node[n].balance) == 0)
    {
      hide SetNear, SetFar, SetParent, SetParentOf, SetBalance, Near, Far, Relink;
      var grandparent, b := node[p].parent, node[n].balance;
      RotateReplaces(node, root, grandparent, n, p, left);
      if Simple(b, left) {
        var x := Near(node[n], left);
        node := SetFar(node, left, p, x);
        if x != 0 {
          SetAt(old(node), left, p, x, 0, x);
          assert node[x].parent == n;
        }
        node := SetParentOf(node, x, p);
        node := SetNear(node, left, n, p);
        node := SetParent(node, p, n);
        node := SetBalance(node, p, if b == 0 then (if left then 1 else -1) else 0);
        node := SetBalance(node, n, if b == 0 then (if left then -1 else 1) else 0);
        subroot := n;
        assert node == RotateSimple(old(node), n, p, left);
      } else {
        subroot := Near(node[n], left);
        assert node[subroot].active;
        var x, y, d := Near(node[subroot], left), Far(node[subroot], left), node[subroot].balance;
        node := SetNear(node, left, n, y);
        node := SetParentOf(node, y, n);
        node := SetFar(node, left, subroot, n);
        node := SetFar(node, left, p, x);
        node := SetParentOf(node, x, p);
        node := SetNear(node, left, subroot, p);
        node := SetParent(node, p, subroot);
        node := SetParent(node, n, subroot);
        assert node == DoubleLinked(old(node), n, p, subroot, left);
        node := SetBalance(node, if left then p else n, if d > 0 then -1 else 0);
        node := SetBalance(node, if left then n else p, if d < 0 then 1 else 0);
        node := SetBalance(node, subroot, 0);
        assert node == RotateDouble(old(node), n, p, subroot, left);
      }
      level := b == 0;
      assert node == RotateNodes(old(node), n, p, left);
      ReplaceNode(grandparent, p, subroot, false);
    }

    /** The rebalancing loop of insertion, from the new leaf `element` upwards. */
    method RebalanceInserted(element: nat, ghost hole: Ctx)
      requires Grown(node, root, hole, Bin(Nil, element, Nil))
      modifies `node, `root, `tree
      ensures Whole(node, root, tree) && SameData(old(node), node)
      ensures Idx(tree) == Idx(Plug(hole, Bin(Nil, element, Nil)))
    {
      hide Grown, Whole, Idx, SameData, Plug, Hole, SetBalance, RotateAll, Rotatable, Turnable, RotateNodes, Links,
          CtxLinks;
      ghost var c, t, s := hole, Bin(Nil, element, Nil), Idx(Plug(hole, Bin(Nil, element, Nil)));
      var n := element;
      GrownSides(node, root, c, t);
      SameDataRefl(node);
      var parent := node[n].parent;
      while parent != 0
        invariant Grown(node, root, c, t) && t.Bin? && n == t.i && parent == Above(c)
        invariant Idx(Plug(c, t)) == s && SameData(old(node), node)
        decreases c
      {
        GrownSides(node, root, c, t);
        ghost var a := HoleOf(c);
        ghost var up, left := c.up, c.InRight?;
        HolePlug(left, up, a, parent, t);
        ghost var m := node;
        if n == node[parent].right {
          if node[parent].balance < 0 {
            GrowAbsorb(node, root, true, up, a, parent, t);
            SameDataBalance(old(node), node, parent, 0);
            node, tree := SetBalance(node, parent, 0), Plug(c, t);
            break;
          } else if node[parent].balance > 0 {
            ghost var w := GrowRotate(node, root, true, up, a, parent, t);
            var subroot, _ := Rotate(n, parent, true);
            parent := subroot;
            SameDataTrans(old(node), m, node);
            tree := w;
            break;
          } else {
            GrowEven(node, root, true, up, a, parent, t);
            SameDataBalance(old(node), node, parent, 1);
            node := SetBalance(node, parent, 1);
          }
        } else {
          assert n == node[parent].left;
          if node[parent].balance > 0 {
            GrowAbsorb(node, root, false, up, a, parent, t);
            SameDataBalance(old(node), node, parent, 0);
            node, tree := SetBalance(node, parent, 0), Plug(c, t);
            break;
          } else if node[parent].balance < 0 {
            ghost var w := GrowRotate(node, root, false, up, a, parent, t);
            var subroot, _ := Rotate(n, parent, false);
            parent := subroot;
            SameDataTrans(old(node), m, node);
            tree := w;
            break;
          } else {
            GrowEven(node, root, false, up, a, parent, t);
            SameDataBalance(old(node), node, parent, -1);
            node := SetBalance(node, parent, -1);
          }
        }
        c, t := up, Mk(left, a, parent, t);
        GrownSides(node, root, c, t);
        n := parent;
        parent := node[parent].parent;
      }
      if parent == 0 {
        GrownTop(node, root, c, t);
        tree := Plug(c, t);
      }
    }

    // ---------------------------------------------------------------- inserting

    /** Hangs slot `element` into the tree, below `from` if that is known. */
    method InsertAt(from: nat, element: nat, comparison: int, ghost place: Ctx) returns (i: nat, ok: bool)
      requires Good(cmp, node, root, count, next, capacity, tree, element)
      requires 0 < element < next && element < |node|
      requires root == 0 ==> from == 0
      requires from != 0 ==> comparison != 0 && tree == Plug(place, Nil) && Above(place) == from
                             && place.InRight? == (comparison < 0) && Cut(cmp, node, place, node[element].data)
      modifies `node, `root, `tree, `count
      ensures InArray(old(node), old(Idx(tree)))
      ensures ok <==> !Has(cmp, Data(old(node), old(Idx(tree))), old(node[element].data))
      ensures ok ==>
          i == element && Valid() && count == old(count) + 1 && i in Idx(tree) && Activated(old(node), node, element)
                     && Values() == Added(cmp, Data(old(node), old(Idx(tree))), old(node[element].data))
      ensures !ok ==> node == old(node) && root == old(root) && tree == old(tree) && count == old(count)
                      && i in Idx(tree) && i < |node| && cmp(node[i].data, node[element].data) == 0
    {
      hide Whole, Idx, Plug, Links, NoDup, Ordered, TotalPreorder, Cut, Data, Added, Has, Before, After, Grown, Slots,
          Leaf, Bal, Above;
      var parent, c := from, comparison;
      ghost var hole := place;
      ghost var m, root0, w := node, root, tree;
      GoodSearchable(cmp, node, root, count, next, capacity, tree, element);
      if root == 0 {
        EmptyHole(cmp, node, root, tree, node[element].data);
        hole := Top;
      } else if parent == 0 {
        var found;
        ghost var depth;
        found, parent, c, hole, depth := ContainsNode(node[element].data);
        if found {
          HasSlot(cmp, node, Idx(tree), parent, node[element].data);
          return parent, false;
        }
      }
      HasNot(cmp, node, hole, node[element].data);
      HangLeaf(node, root, hole, element);
      if root == 0 {
        root := element;
      } else if c < 0 {
        node := SetFar(node, true, parent, element);
      } else {
        node := SetFar(node, false, parent, element);
      }
      assert (node, root) == Hung(m, root0, parent, element, hole.InRight?);
      node := Leaf(node, element, parent);
      RebalanceInserted(element, hole);
      count := count + 1;
      LeafActivates(m, root0, parent, element, hole.InRight?, node);
      GoodInserted(cmp, m, root0, count - 1, next, capacity, hole, element, node, root, tree);
      InMiddle(Before(hole), element, After(hole));
      return element, true;
    }

    // ---------------------------------------------------------------- removing

    /** The rebalancing loop of deletion, from `element` upwards: the balances become right for
        the tree without it. */
    method RebalanceErased(element: nat) returns (ghost w: Tree)
      requires Whole(node, root, tree) && element in Idx(tree)
      requires element < |node| && (node[element].left == 0 || node[element].right == 0)
      modifies `node, `root
      ensures Detachable(node, root, w, element) && Idx(w) == Idx(tree) && SameData(old(node), node)
    {
      hide Shrunk, Detachable, Whole, Idx, SameData, Plug, Hole, SetBalance, RotateAll, Rotatable, Turnable,
          RotateNodes, Links, CtxLinks, Del, Simple, Raised, LinkedFrom;
      ghost var order := Idx(tree);
      ghost var c, t := ShrinkFrom(node, root, tree, element);
      var n := element;
      ShrunkSides(node, root, c, t, element);
      SameDataRefl(node);
      var parent := node[element].parent;
      while parent != 0
        invariant Shrunk(node, root, c, t, element) && t.Bin? && n == t.i && parent == Above(c)
        invariant Idx(Plug(c, t)) == order && SameData(old(node), node)
        decreases c
      {
        ShrunkSides(node, root, c, t, element);
        ghost var f := HoleOf(c);
        ghost var up, left := c.up, c.InLeft?;
        HolePlug(!left, up, f, parent, t);
        Flip(left, up, f, parent, t);
        MkBin(left, t, parent, f);
        ghost var m, t' := node, Mk(left, t, parent, f);
        var grandparent := node[parent].parent;
        if node[parent].left == n {
          if node[parent].balance < 0 {
            ShrinkNear(node, root, true, up, f, parent, t, element);
            SameDataBalance(old(node), node, parent, 0);
            node := SetBalance(node, parent, 0);
          } else if node[parent].balance == 0 {
            ShrinkEven(node, root, true, up, f, parent, t, element);
            SameDataBalance(old(node), node, parent, 1);
            node := SetBalance(node, parent, 1);
            break;
          } else {
            t' := ShrinkRotate(node, root, true, up, f, parent, t, element);
            var subroot, level := Rotate(node[parent].right, parent, true);
            SameDataTrans(old(node), m, node);
            parent := subroot;
            c, t := up, t';
            if level {
              break;
            }
          }
        } else {
          assert node[parent].right == n;
          if node[parent].balance > 0 {
            ShrinkNear(node, root, false, up, f, parent, t, element);
            SameDataBalance(old(node), node, parent, 0);
            node := SetBalance(node, parent, 0);
          } else if node[parent].balance == 0 {
            ShrinkEven(node, root, false, up, f, parent, t, element);
            SameDataBalance(old(node), node, parent, -1);
            node := SetBalance(node, parent, -1);
            break;
          } else {
            t' := ShrinkRotate(node, root, false, up, f, parent, t, element);
            var subroot, level := Rotate(node[parent].left, parent, false);
            SameDataTrans(old(node), m, node);
            parent := subroot;
            c, t := up, t';
            if level {
              break;
            }
          }
        }
        c, t := up, t';
        ShrunkSides(node, root, c, t, element);
        n := parent;
        parent := grandparent;
      }
      if parent == 0 {
        ShrunkTop(node, root, c, t, element);
      }
      w := Plug(c, t);
    }

    /** Takes slot `element`, which has at most one child, out of the tree. The way up is
        rebalanced first. */
    method EraseNode(element: nat) returns (ghost s: seq<nat>, ghost s': seq<nat>)
      requires Whole(node, root, tree) && element in Idx(tree)
      requires element < |node| && (node[element].left == 0 || node[element].right == 0)
      modifies `node, `root, `tree
      ensures Whole(node, root, tree) && SameData(old(node), node)
      ensures old(Idx(tree)) == s + [element] + s' && Idx(tree) == s + s'
    {
      hide Detachable, Whole, Idx, SameData, Del, LinkedFrom, Replaced;
      ghost var w := RebalanceErased(element);
      s, s' := DetachedIdx(node, root, w, element);
      Unlink(node, root, w, element);
      var child := if node[element].left != 0 then node[element].left else node[element].right;
      SameDataTrans(old(node), node, Replaced(node, root, node[element].parent, element, child, false).0);
      ReplaceNode(node[element].parent, element, child, false);
      tree := Del(w, element);
    }

    /** Takes the value in slot `position` out of the set; the slot stays allocated. */
    method Extract(position: nat) returns (value: T)
      requires Valid() && 0 < position < next && position < |node| && node[position].active
      modifies `node, `root, `tree, `count
      ensures Valid() && value == old(node[position].data) && count == old(count) - 1
      ensures Values() == Removed(cmp, old(Values()), value)
      ensures Deactivated(old(node), node, position)
    {
      hide Whole, Idx, Plug, Links, NoDup, Ordered, TotalPreorder, Data, Removed, Slots, Deactivated, Replaced;
      ghost var m, root0, w := node, root, tree;
      ActiveIn(cmp, node, root, count, next, capacity, tree);
      value := node[position].data;
      ghost var s, s';
      if node[position].left != 0 && node[position].right != 0 {
        s, s' := ExtractInner(position);
      } else {
        s, s' := EraseNode(position);
        NotInWithout(m, root0, w, s, position, s');
      }
      LeaveActive(node, root, tree, m, position);
      node := SetActive(node, position, false);
      count := count - 1;
      GoodRemoved(cmp, m, root0, count + 1, next, capacity, w, s, position, s', node, root, tree);
    }

    /** The two-child case of `Extract`: the successor is unlinked and takes the slot's place. */
    method ExtractInner(position: nat) returns (ghost s: seq<nat>, ghost s': seq<nat>)
      requires Whole(node, root, tree) && position in Idx(tree) && position < |node|
      requires node[position].left != 0 && node[position].right != 0
      modifies `node, `root, `tree
      ensures Whole(node, root, tree) && SameData(old(node), node) && position !in Idx(tree)
      ensures old(Idx(tree)) == s + [position] + s' && Idx(tree) == s + s'
    {
      hide Whole, Idx, Plug, Links, NoDup, Replaced, Before, After, CtxLinks, Focused;
      ghost var m := node;
      ghost var c, t := FocusWhole(node, root, tree, position);
      GoDown(node, tree, c, t, position);
      var successor := MinNode(node[position].right, InRight(c, t.l, position), t.r);
      Successor(c, t.l, position, t.r, successor);
      ghost var x, y := Before(c) + Idx(t.l), Idx(t.r)[1..] + After(c);
      WholeSlots(node, root, tree);
      ghost var a, b := EraseNode(successor);
      SuccessorTakes(x, position, successor, y, a, b);
      InMiddle(x, position, y);
      c, t := FocusWhole(node, root, tree, position);
      WholeActive(m, successor, old(root), old(tree), node);
      TakePlace(node, root, c, t.l, position, t.r, successor);
      ghost var r := Replaced(node, root, Above(c), position, successor, true);
      StillActive(r.0, successor);
      SameDataTrans(m, node, r.0);
      ReplaceNode(node[position].parent, position, successor, true);
      tree := Plug(c, Bin(t.l, successor, t.r));
      TakenOrder(c, t.l, position, t.r, successor, x, y);
      s, s' := x, [successor] + y;
      assert x + [successor] + y == s + s';
      NoDupWithout(x, s', position);
    }

    /** Removes an equal value, if there is one. */
    method Erase(value: T) returns (found: bool)
      requires Valid()
      modifies `node, `root, `tree, `count
      ensures Valid() && found == Has(cmp, old(Values()), value)
      ensures Values() == Removed(cmp, old(Values()), value)
      ensures count == old(count) - (if found then 1 else 0)
    {
      hide Whole, Idx, Links, NoDup, Ordered, TotalPreorder, Data, Removed, Slots, Has;
      var position := Find(value);
      ActiveIn(cmp, node, root, count, next, capacity, tree);
      if 1 <= position < next && node[position].active {
        RemovedEqual(cmp, Values(), node[position].data, value);
        var _ := Extract(position);
        found := true;
      } else {
        RemovedAbsent(cmp, Values(), value);
        found := false;
      }
    }

    // ---------------------------------------------------------------- capacity

    /** Moves the active slots to the front; tells whether anything could move. */
    method Reorder() returns (changed: bool)
      requires Valid()
      modifies `node, `root, `tree, `next
      ensures Valid() && next == count + 1
      ensures Values() == old(Values()) && Shape(tree) == old(Shape(tree))
      ensures changed <==> old(count + 1 < next)
    {
      hide Good, Idx, Data, Shape, Moved, InArray;
      GoodNext(cmp, node, root, count, next, capacity, tree);
      ActiveIn(cmp, node, root, count, next, capacity, tree);
      if count + 1 < next {
        var j: nat := next - 1;
        for i := 1 to count + 1
          invariant Valid() && Values() == old(Values()) && Shape(tree) == old(Shape(tree))
          invariant next == old(next) && 0 < j < next <= |node|
          invariant FilledTo(node, i) && NoneBeyond(Idx(tree), j)
        {
          if !node[i].active {
            j := LastActive(i, j);
            MoveTo(j, i);
          }
        }
        GoodCompact(cmp, node, root, count, next, capacity, tree);
        next := count + 1;
        changed := true;
      } else {
        changed := false;
      }
    }

    /** The last active slot not beyond `from`, which lies after the free slot `i`. */
    method LastActive(i: nat, from: nat) returns (j: nat)
      requires Valid() && 0 < from < next <= |node| && 0 < i <= count && i < |node| && !node[i].active
      requires NoneBeyond(Idx(tree), from)
      ensures i < j <= from && node[j].active && NoneBeyond(Idx(tree), j)
    {
      hide Whole, Idx, NoDup, Ordered, TotalPreorder, Slots;
      ActiveIn(cmp, node, root, count, next, capacity, tree);
      j := from;
      Crowded(Idx(tree), i, j);
      while !node[j].active
        invariant i < j <= from
        invariant forall x :: x in Idx(tree) ==> x <= j
        decreases j
      {
        assert j !in Idx(tree);
        j := j - 1;
        Crowded(Idx(tree), i, j);
      }
    }

    /** One move of `Reorder`. */
    method MoveTo(j: nat, i: nat)
      requires Valid() && 0 < i < j < next && j < |node| && node[j].active && !node[i].active
      modifies `node, `root, `tree
      ensures Valid() && Values() == old(Values()) && Shape(tree) == old(Shape(tree)) && Moved(old(node), node, j, i)
      ensures |node| == old(|node|)
      ensures NoneBeyond(old(Idx(tree)), j) ==> NoneBeyond(Idx(tree), j)
      ensures FilledTo(old(node), i) ==> FilledTo(node, i) && node[i].active
    {
      hide Good, Idx, Data, Shape, Replaced, NoneBeyond, FilledTo, LinkedFrom, InArray;
      ActiveIn(cmp, node, root, count, next, capacity, tree);
      ghost var w := MoveSlot(cmp, node, root, count, next, capacity, tree, j, i);
      node := SetData(node, i, node[j].data);
      ReplaceNode(node[j].parent, j, i, true);
      node := SetActive(node, i, true);
      node := SetActive(node, j, false);
      MovedUp(cmp, old(node), old(root), count, next, capacity, tree, node, root, w, j, i);
      tree := w;
    }

    /** Changes the number of slots; `memory` is what the allocator left in new ones. */
    method Resize(size: nat, memory: nat -> Node<T>) returns (ok: bool)
      requires Valid()
      modifies `node, `root, `tree, `next, `capacity
      ensures Valid() && Values() == old(Values()) && Shape(tree) == old(Shape(tree))
      ensures ok <==> count < size <= UINT32_MAX
      ensures ok ==> next == count + 1 && capacity == (if size < 16 then 16 else size)
      ensures !ok ==>
          node == old(node) && root == old(root) && tree == old(tree) && next == old(next) && capacity == old(capacity)
    {
      hide Whole, Idx, NoDup, Ordered, TotalPreorder, Data, Shape, Slots;
      if size <= count || size > UINT32_MAX {
        return false;
      }
      var slots := if size < 16 then 16 else size;
      var _ := Reorder();
      if slots != capacity {
        var m := node;
        ghost var c := capacity;
        node := seq(slots, i requires 0 <= i < slots => if i < |m| then m[i] else memory(i));
        capacity := slots;
        node := SetActive(node, 0, false);
        GoodResized(cmp, m, root, count, next, c, tree, node);
      }
      return true;
    }

    /** Makes room for one more slot. The doubled sizes wrap around at 32 bits. */
    method Increase(memory: nat -> Node<T>) returns (ok: bool)
      requires Valid()
      modifies `node, `root, `tree, `next, `capacity
      ensures Valid() && Values() == old(Values()) && Shape(tree) == old(Shape(tree))
      ensures old(next < capacity || capacity < UINT32_RANGE / 2) ==> ok && next < capacity
      ensures next == if old(next < capacity) || !ok then old(next) else count + 1
      ensures var doubled := old(capacity) * 2 % UINT32_RANGE;
              var crowded := old(next >= capacity > 0 && count * 2 % UINT32_RANGE > capacity);
              && (ok <==> (crowded ==> count < doubled))
              && capacity == (if old(capacity) == 0 then 16
                              else if !crowded || !ok then old(capacity) else if doubled < 16 then 16 else doubled)
    {
      hide Whole, Idx, NoDup, Ordered, TotalPreorder, Data, Shape, Slots;
      GoodNext(cmp, node, root, count, next, capacity, tree);
      if capacity == 0 {
        ok := Resize(16, memory);
        return;
      } else if next >= capacity {
        if count * 2 % UINT32_RANGE <= capacity {
          var _ := Reorder();
        } else {
          ok := Resize(capacity * 2 % UINT32_RANGE, memory);
          return;
        }
      }
      return true;
    }

    /** Inserts the value of a node that belongs to another container: the next slot is taken
        without making room first, so there has to be one unless the value is known already. */
    method InsertForeign(value: T) returns (i: nat, ok: bool)
      requires Valid() && (next < capacity || Has(cmp, Values(), value))
      modifies `node, `root, `tree, `next, `count
      ensures Valid() && Values() == Added(cmp, old(Values()), value)
      ensures ok <==> !Has(cmp, old(Values()), value)
      ensures count == old(count) + (if ok then 1 else 0) && next == old(next) + (if ok then 1 else 0)
      ensures i in Idx(tree) && i < |node| && cmp(node[i].data, value) == 0
    {
      hide Whole, Idx, NoDup, Ordered, TotalPreorder, Data, Shape, Slots, Added, Has, Cut, Plug, Links, Bal,
          Activated, Above, Height;
      GoodSearchable(cmp, node, root, count, next, capacity, tree, next);
      var found, at, c, hole, _ := ContainsNode(value);
      if found {
        AddedPresent(cmp, node, Idx(tree), at, value);
        return at, false;
      }
      HasNot(cmp, node, hole, value);
      GoodClaim(cmp, node, root, count, next, capacity, tree, value);
      CutClaim(cmp, node, hole, next, value, value);
      EmptyAbove(node, root, tree, hole);
      Reflexive(cmp, value);
      node := SetData(node, next, value);
      next := next + 1;
      ghost var m := node;
      HasNot(cmp, node, hole, value);
      i, ok := InsertAt(at, next - 1, c, hole);
      ActivatedData(m, node, i);
    }

    /** Inserts a value; tells its slot and whether it is new. */
    method Insert(value: T, memory: nat -> Node<T>) returns (i: nat, ok: bool)
      requires Valid() && (next < capacity || capacity < UINT32_RANGE / 2)
      modifies `node, `root, `tree, `next, `capacity, `count
      ensures Valid() && Values() == Added(cmp, old(Values()), value)
      ensures ok <==> !Has(cmp, old(Values()), value)
      ensures count == old(count) + (if ok then 1 else 0)
      ensures i in Idx(tree) && i < |node| && cmp(node[i].data, value) == 0
    {
      hide Whole, Idx, NoDup, Ordered, TotalPreorder, Data, Shape, Slots, Added, Has, Cut, Plug, Links, Bal,
          Activated, Above, Height;
      var _ := Increase(memory);
      i, ok := InsertForeign(value);
    }

    /** Puts the value that `Extract` left in slot `n` back into the set. */
    method InsertNode(n: nat) returns (i: nat, ok: bool)
      requires Valid() && 0 < n < next && n < |node| && !node[n].active
      modifies `node, `root, `tree, `count
      ensures Valid() && Values() == Added(cmp, old(Values()), old(node[n].data))
      ensures ok <==> !Has(cmp, old(Values()), old(node[n].data))
      ensures count == old(count) + (if ok then 1 else 0) && (ok ==> i == n)
      ensures i in Idx(tree) && i < |node| && cmp(node[i].data, old(node[n].data)) == 0
    {
      hide Whole, Idx, NoDup, Ordered, TotalPreorder, Data, Shape, Slots, Added, Has, Cut, Plug, Links, Bal,
          Activated, Above, Height;
      ghost var v := node[n].data;
      GoodSkip(cmp, node, root, count, next, capacity, tree, n);
      var found, at, c, hole, _ := ContainsNode(node[n].data);
      if found {
        AddedPresent(cmp, node, Idx(tree), at, node[n].data);
        return at, false;
      }
      EmptyAbove(node, root, tree, hole);
      ghost var m := node;
      Reflexive(cmp, v);
      i, ok := InsertAt(at, n, c, hole);
      if ok { ActivatedData(m, node, i); }
      if !ok {
        AddedPresent(cmp, node, Idx(tree), i, v);
      }
    }

    /** Forgets all values; the slots stay allocated. */
    method Clear()
      requires Valid()
      modifies `node, `root, `tree, `next, `count
      ensures Valid() && Values() == [] && count == 0
      ensures next == if old(count) > 0 then 1 else old(next)
    {
      hide Links, NoDup, Ordered, TotalPreorder, Bal;
      GoodNext(cmp, node, root, count, next, capacity, tree);
      if count > 0 {
        ghost var m := node;
        for i := 0 to next
          invariant |node| == |m| && next == old(next) && next <= |node|
          invariant forall x :: 0 <= x < i ==> !node[x].active
          invariant forall x :: i <= x < |node| ==> node[x] == m[x]
          invariant TotalPreorder(cmp) && capacity == |node| && capacity >= 16
        {
          if node[i].active {
            node := SetActive(node, i, false);
          }
        }
        next, count := 1, 0;
      }
      root, tree := 0, Nil;
      EmptyWhole(cmp, node);
    }

    constructor (compare: (T, T) -> int, size: nat, memory: nat -> Node<T>)
      requires TotalPreorder(compare)
      ensures Valid() && Values() == [] && cmp == compare
    {
      cmp := compare;
      root, capacity, next, count, node, tree := 0, 0, 1, 0, [], Nil;
      new;
      EmptyWhole(cmp, node);
      if size > 0 {
        var _ := Resize(size + 1, memory);
      }
    }

    // ---------------------------------------------------------------- self check

    /** Recomputes the height of a subtree; `ok` tells whether every stored parent and balance fits. */
    method CheckNode(i: nat, parent: nat, ghost t: Tree) returns (height: nat, ok: bool)
      requires Links(node, t, i, parent) && Bal(node, t)
      ensures ok && height == Height(t)
      decreases t
    {
      if i == 0 {
        return 0, true;
      }
      var left, okLeft := CheckNode(node[i].left, i, t.l);
      var right, okRight := CheckNode(node[i].right, i, t.r);
      ok := okLeft && okRight && node[i].parent == parent && left + node[i].balance == right;
      height := 1 + if left > right then left else right;
    }

    /** Counts the active slots. */
    method CheckCount() returns (c: nat)
      requires Valid()
      ensures c == count
    {
      hide Whole, Idx, NoDup, Ordered, TotalPreorder, Slots;
      GoodNext(cmp, node, root, count, next, capacity, tree);
      ActiveIn(cmp, node, root, count, next, capacity, tree);
      c := 0;
      ghost var seen: seq<nat> := [];
      NoDupEmpty();
      for i := 1 to next
        invariant c == |seen| && NoDup(seen)
        invariant forall x: nat :: x in seen <==> x < i && x in Idx(tree)
      {
        if node[i].active {
          NoDupParts(seen, [i]);
          NoDupOne(i);
          c, seen := c + 1, seen + [i];
        }
      }
      SubsetSize(seen, Idx(tree));
      SubsetSize(Idx(tree), seen);
    }

    /** Walks all slots from `Begin` by `Next`; `ok` tells whether the values ascend. */
    method CheckOrder() returns (c: nat, ok: bool, ghost visited: seq<nat>)
      requires Valid()
      ensures ok && c == count && visited == Idx(tree)
    {
      hide Good, Idx, NoDup, Follows;
      c, ok, visited := 0, true, [];
      ghost var s := Idx(tree);
      GoodOrder(cmp, node, root, count, next, capacity, tree);
      var i := Begin();
      if i != 0 {
        c, visited := 1, [i];
        var last := i;
        i := Next(i);
        FollowsAt(s, last, 0, i);
        while i != 0
          invariant 0 < c <= |s| && visited == s[..c] && ok && last == s[c - 1] && i == SlotAt(s, c)
          decreases |s| - c
        {
          ok := ok && cmp(node[last].data, node[i].data) < 0;
          c, visited := c + 1, visited + [i];
          last := i;
          i := Next(i);
          FollowsAt(s, last, c - 1, i);
        }
      }
    }

    /** The set's own consistency check, which never fails. */
    method Check() returns (ok: bool)
      requires Valid()
      ensures ok
    {
      hide Idx, NoDup, Ordered, TotalPreorder, Height;
      ActiveIn(cmp, node, root, count, next, capacity, tree);
      RootEmpty(node, root, tree);
      ok := capacity == 0 || !node[0].active;
      var c := CheckCount();
      ok := ok && c == count;
      var n, ascending, _ := CheckOrder();
      ok := ok && ascending && n == count;
      if root == 0 {
        ok := ok && count == 0;
      } else {
        LinksParent(node, tree, root, 0);
        var _, balanced := CheckNode(root, 0, tree);
        ok := ok && node[root].parent == 0 && balanced;
      }
    }
  }

  /** A search makes at most the height's number of comparisons, and a set of that height has
      at least a Fibonacci number of values. */
  lemma DepthBound<T(!new)>(s: TreeSet<T>)
    requires s.Valid()
    ensures Fib(Height(s.tree) + 2) <= s.count + 1
  {
    AvlBound(s.node, s.tree);
  }
}
