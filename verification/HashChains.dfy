/** Bucket chains: circular-free doubly linked lists of slots threaded through a node array. */
module HashChains {
  import opened SlotLists

  /** A slot of the node array; index 0 is the null node. `temp` caches the hash value. */
  datatype Node<T> = Node(active: bool, prev: nat, next: nat, temp: nat, data: T)

  // ------------------------------------------------------------------ one chain

  /** The slot at position `k` of `c` is linked to its neighbours in `c`. */
  ghost predicate Fits<T>(m: seq<Node<T>>, c: seq<nat>, k: nat) {
    k < |c| && 0 < c[k] < |m| && m[c[k]].next == SlotAt(c, k + 1) && m[c[k]].prev == SlotAt(c, k - 1)
  }

  /** `head` leads through the slots of `c`, linked both ways. */
  ghost predicate Chained<T>(m: seq<Node<T>>, head: nat, c: seq<nat>) {
    head == FirstOr0(c) && NoDup(c) && forall k: nat :: k < |c| ==> Fits(m, c, k)
  }

  /** The slots of `all` with hash values that fall into bucket `b`. */
  ghost predicate Holds<T>(m: seq<Node<T>>, c: seq<nat>, b: nat, n: nat, all: set<nat>)
    requires n > 0
  {
    forall x :: x in c <==> x in all && x < |m| && m[x].temp % n == b
  }

  /** Every bucket's chain holds exactly the slots of `all` that belong there. */
  ghost predicate Filed<T>(m: seq<Node<T>>, bucket: seq<nat>, ch: seq<seq<nat>>, all: set<nat>) {
    |ch| == |bucket|
    && forall b :: 0 <= b < |bucket| ==> Chained(m, bucket[b], ch[b]) && Holds(m, ch[b], b, |bucket|, all)
  }

  lemma FiledAt<T>(m: seq<Node<T>>, bucket: seq<nat>, ch: seq<seq<nat>>, all: set<nat>, b: nat)
    requires Filed(m, bucket, ch, all) && b < |bucket|
    ensures |ch| == |bucket| && Chained(m, bucket[b], ch[b]) && Holds(m, ch[b], b, |bucket|, all)
  {
  }

  /** The head of a chain is 0 or an own slot without predecessor. */
  lemma HeadOf<T>(m: seq<Node<T>>, head: nat, c: seq<nat>)
    requires Chained(m, head, c)
    ensures head == 0 <==> c == []
    ensures head != 0 ==> head in c && head < |m| && m[head].prev == 0 && head == c[0]
    ensures forall x :: x in c ==> 0 < x < |m|
  {
    if c != [] {
      assert Fits(m, c, 0);
    }
    forall x | x in c
      ensures 0 < x < |m|
    {
      var k :| 0 <= k < |c| && c[k] == x;
      assert Fits(m, c, k);
    }
  }

  /** The links of slots outside the change stay. */
  ghost predicate SameLink<T>(m: seq<Node<T>>, r: seq<Node<T>>, c: seq<nat>) {
    forall x :: x in c ==> x < |m| && x < |r| && r[x].prev == m[x].prev && r[x].next == m[x].next
  }

  lemma ChainedFrame<T>(m: seq<Node<T>>, r: seq<Node<T>>, head: nat, c: seq<nat>)
    requires Chained(m, head, c) && SameLink(m, r, c)
    ensures Chained(r, head, c)
  {
    forall k: nat | k < |c|
      ensures Fits(r, c, k)
    {
      assert c[k] in c && Fits(m, c, k);
    }
  }

  /** A bucket none of whose slots is touched keeps its chain. */
  lemma KeepBucket<T>(m: seq<Node<T>>, r: seq<Node<T>>, head: nat, c: seq<nat>, d: nat, n: nat, all: set<nat>,
                      all': set<nat>, e: nat)
    requires n > 0 && Chained(m, head, c) && Holds(m, c, d, n, all) && |r| == |m| && SameLink(m, r, c)
    requires forall x :: 0 <= x < |m| ==> r[x].temp == m[x].temp
    requires e < |m| && m[e].temp % n != d && forall x :: x != e ==> (x in all <==> x in all')
    ensures Chained(r, head, c) && Holds(r, c, d, n, all')
  {
    ChainedFrame(m, r, head, c);
    hide Chained, SameLink;
    assert e !in c;
  }

  // ------------------------------------------------------------------ linking in at the head

  /** Hooks slot `e` in before the head of a chain. */
  function LinkIn<T>(m: seq<Node<T>>, e: nat, head: nat): (r: seq<Node<T>>)
    requires e < |m| && head < |m|
    ensures |r| == |m|
  {
    var m1 := m[e := m[e].(prev := 0, next := head)];
    if head == 0 then m1 else m1[head := m1[head].(prev := e)]
  }

  lemma LinkInAt<T>(m: seq<Node<T>>, e: nat, head: nat)
    requires e < |m| && head < |m| && e != head
    ensures var r := LinkIn(m, e, head);
            && r[e] == m[e].(prev := 0, next := head)
            && (head != 0 ==> r[head] == m[head].(prev := e))
            && forall x :: 0 <= x < |m| && x != e && (x != head || head == 0) ==> r[x] == m[x]
  {
  }

  lemma LinkInChain<T>(m: seq<Node<T>>, e: nat, head: nat, c: seq<nat>)
    requires Chained(m, head, c) && 0 < e < |m| && e !in c
    ensures head < |m| && Chained(LinkIn(m, e, head), e, [e] + c)
  {
    HeadOf(m, head, c);
    LinkInAt(m, e, head);
    var r, d := LinkIn(m, e, head), [e] + c;
    NoDupParts([e], c);
    hide LinkIn;
    forall k: nat | k < |d|
      ensures Fits(r, d, k)
    {
      if k > 0 {
        assert Fits(m, c, k - 1);
        LinkInOne(m, r, e, head, c, k - 1);
      } else {
        assert d[0] == e && SlotAt(d, 1) == FirstOr0(c);
      }
    }
  }

  lemma LinkInOne<T>(m: seq<Node<T>>, r: seq<Node<T>>, e: nat, head: nat, c: seq<nat>, k: nat)
    requires Fits(m, c, k) && head == c[0] && |r| == |m| && NoDup(c) && e != c[k]
    requires head != 0 && head < |m| ==> r[head] == m[head].(prev := e)
    requires c[k] != head ==> r[c[k]] == m[c[k]]
    ensures Fits(r, [e] + c, k + 1)
  {
    var d := [e] + c;
    assert d[k + 1] == c[k] && SlotAt(d, k + 2) == SlotAt(c, k + 1) && d[k] == if k == 0 then e else c[k - 1];
    assert k > 0 ==> c[k] != c[0];
  }

  /** Filing slot `e` under its bucket. */
  lemma FileIn<T>(m: seq<Node<T>>, bucket: seq<nat>, ch: seq<seq<nat>>, all: set<nat>, e: nat)
    requires Filed(m, bucket, ch, all) && |bucket| > 0 && 0 < e < |m| && e !in all
    ensures var b := m[e].temp % |bucket|;
            && bucket[b] < |m| && (bucket[b] != 0 ==> bucket[b] in all && m[bucket[b]].prev == 0 && bucket[b] != e)
            && Filed(LinkIn(m, e, bucket[b]), bucket[b := e], ch[b := [e] + ch[b]], all + {e})
  {
    var b := m[e].temp % |bucket|;
    FiledAt(m, bucket, ch, all, b);
    HeadOf(m, bucket[b], ch[b]);
    assert e !in ch[b];
    LinkInChain(m, e, bucket[b], ch[b]);
    LinkInAt(m, e, bucket[b]);
    var r, bucket', ch' := LinkIn(m, e, bucket[b]), bucket[b := e], ch[b := [e] + ch[b]];
    hide Chained, LinkIn, Holds;
    forall d: nat | d < |bucket'|
      ensures Chained(r, bucket'[d], ch'[d]) && Holds(r, ch'[d], d, |bucket'|, all + {e})
    {
      if d != b {
        FiledAt(m, bucket, ch, all, d);
        HeadOf(m, bucket[d], ch[d]);
        FileInOther(m, r, bucket, ch, all, e, b, d);
      }
    }
  }

  lemma FileInOther<T>(m: seq<Node<T>>, r: seq<Node<T>>, bucket: seq<nat>, ch: seq<seq<nat>>, all: set<nat>, e: nat,
                       b: nat, d: nat)
    requires |ch| == |bucket| && d < |bucket| && b < |bucket| && d != b && |r| == |m|
    requires e < |m| && e !in all && m[e].temp % |bucket| == b
    requires Chained(m, bucket[d], ch[d]) && Holds(m, ch[d], d, |bucket|, all) && Holds(m, ch[b], b, |bucket|, all)
    requires forall x :: x in ch[d] ==> 0 < x < |m|
    requires bucket[b] != 0 ==> bucket[b] in ch[b]
    requires forall x :: 0 <= x < |m| ==> r[x].temp == m[x].temp
    requires forall x :: 0 <= x < |m| && x != e && (x != bucket[b] || x == 0) ==> r[x] == m[x]
    ensures Chained(r, bucket[d], ch[d]) && Holds(r, ch[d], d, |bucket|, all + {e})
  {
    hide Chained;
    assert SameLink(m, r, ch[d]);
    KeepBucket(m, r, bucket[d], ch[d], d, |bucket|, all, all + {e}, e);
  }

  // ------------------------------------------------------------------ unlinking

  /** Unhooks slot `e` from its neighbours. */
  function LinkOut<T>(m: seq<Node<T>>, e: nat, first: bool): (r: seq<Node<T>>)
    requires e < |m| && m[e].next < |m| && m[e].prev < |m|
    ensures |r| == |m|
  {
    var m1 := if m[e].next != 0 then m[m[e].next := m[m[e].next].(prev := m[e].prev)] else m;
    if !first && m[e].prev != 0 then m1[m[e].prev := m1[m[e].prev].(next := m[e].next)] else m1
  }

  /** The place of a slot in its chain. */
  lemma InChain<T>(m: seq<Node<T>>, head: nat, c: seq<nat>, k: nat)
    requires Chained(m, head, c) && k < |c|
    ensures var e := c[k];
            && 0 < e < |m| && m[e].next == SlotAt(c, k + 1) < |m| && m[e].prev == SlotAt(c, k - 1) < |m|
            && m[e].next != e && m[e].prev != e && (m[e].next == m[e].prev ==> m[e].next == 0)
            && (head == e <==> k == 0) && (m[e].prev == 0 <==> k == 0)
            && (m[e].next != 0 ==> m[e].next in c && m[m[e].next].prev == e)
            && (m[e].prev != 0 ==> m[e].prev in c && m[m[e].prev].next == e)
  {
    assert Fits(m, c, k);
    if k + 1 < |c| { assert Fits(m, c, k + 1); }
    if k > 0 { assert Fits(m, c, k - 1); }
  }

  lemma LinkOutChain<T>(m: seq<Node<T>>, head: nat, c: seq<nat>, k: nat)
    requires Chained(m, head, c) && k < |c|
    ensures 0 < c[k] < |m| && m[c[k]].next < |m| && m[c[k]].prev < |m|
    ensures Chained(LinkOut(m, c[k], head == c[k]), if head == c[k] then m[c[k]].next else head, c[..k] + c[k + 1..])
    ensures NoDup(c[..k] + c[k + 1..]) && c[k] !in c[..k] + c[k + 1..]
    ensures forall x :: x in c <==> x in c[..k] + c[k + 1..] || x == c[k]
  {
    var e, a, b := c[k], c[..k], c[k + 1..];
    InChain(m, head, c, k);
    assert c == a + [e] + b;
    NoDupWithout(a, b, e);
    assert forall x :: x in c <==> x in a + b || x == e;
    var r := LinkOut(m, e, head == e);
    assert FirstOr0(a + b) == if k == 0 then SlotAt(c, 1) else c[0];
    hide LinkOut;
    forall j: nat | j < |a + b|
      ensures Fits(r, a + b, j)
    {
      if j < k {
        assert Fits(m, c, j);
        LinkOutBefore(m, r, c, k, j);
      } else {
        assert Fits(m, c, j + 1);
        LinkOutAfter(m, r, c, k, j);
      }
    }
  }

  lemma LinkOutBefore<T>(m: seq<Node<T>>, r: seq<Node<T>>, c: seq<nat>, k: nat, j: nat)
    requires NoDup(c) && Fits(m, c, k) && Fits(m, c, j) && j < k && |r| == |m|
    requires var p := m[c[k]].prev; p != 0 && p < |m| ==> r[p] == m[p].(next := m[c[k]].next)
    requires forall x :: 0 <= x < |m| && (x != m[c[k]].next || x == 0) && (x != m[c[k]].prev || x == 0) ==> r[x] == m[x]
    ensures Fits(r, c[..k] + c[k + 1..], j)
  {
    var d := c[..k] + c[k + 1..];
    assert d[j] == c[j] && SlotAt(d, j - 1) == SlotAt(c, j - 1);
    assert SlotAt(d, j + 1) == if j + 1 < k then c[j + 1] else SlotAt(c, k + 1);
    assert k + 1 < |c| ==> c[j] != c[k + 1];
    assert j < k - 1 ==> c[j] != c[k - 1];
  }

  lemma LinkOutAfter<T>(m: seq<Node<T>>, r: seq<Node<T>>, c: seq<nat>, k: nat, j: nat)
    requires NoDup(c) && Fits(m, c, k) && Fits(m, c, j + 1) && k <= j && |r| == |m|
    requires var n := m[c[k]].next; n != 0 && n < |m| ==> r[n] == m[n].(prev := m[c[k]].prev)
    requires forall x :: 0 <= x < |m| && (x != m[c[k]].next || x == 0) && (x != m[c[k]].prev || x == 0) ==> r[x] == m[x]
    ensures Fits(r, c[..k] + c[k + 1..], j)
  {
    var d := c[..k] + c[k + 1..];
    assert d[j] == c[j + 1] && SlotAt(d, j + 1) == SlotAt(c, j + 2);
    assert SlotAt(d, j - 1) == if j > k then c[j] else SlotAt(c, k - 1);
    assert k > 0 ==> c[j + 1] != c[k - 1];
    assert j > k ==> c[j + 1] != c[k + 1];
  }

  /** Taking slot `e` out of its bucket. */
  lemma FileOut<T>(m: seq<Node<T>>, bucket: seq<nat>, ch: seq<seq<nat>>, all: set<nat>, e: nat) returns (k: nat)
    requires Filed(m, bucket, ch, all) && |bucket| > 0 && e < |m| && e in all
    ensures var b := m[e].temp % |bucket|;
            && |ch| == |bucket| && k < |ch[b]| && ch[b][k] == e && bucket[b] != 0
            && m[e].next < |m| && m[e].prev < |m| && (bucket[b] == e <==> m[e].prev == 0)
            && (m[e].next != 0 ==> m[e].next in all && m[m[e].next].prev == e)
            && (m[e].prev != 0 ==> m[e].prev in all && m[m[e].prev].next == e)
            && Filed(LinkOut(m, e, bucket[b] == e), if bucket[b] == e then bucket[b := m[e].next] else bucket,
                     ch[b := ch[b][..k] + ch[b][k + 1..]], all - {e})
  {
    var b := m[e].temp % |bucket|;
    FiledAt(m, bucket, ch, all, b);
    assert e in ch[b];
    k :| 0 <= k < |ch[b]| && ch[b][k] == e;
    HeadOf(m, bucket[b], ch[b]);
    InChain(m, bucket[b], ch[b], k);
    LinkOutChain(m, bucket[b], ch[b], k);
    FileOutRest(m, bucket, ch, all, e, b, k);
  }

  lemma FileOutRest<T>(m: seq<Node<T>>, bucket: seq<nat>, ch: seq<seq<nat>>, all: set<nat>, e: nat, b: nat, k: nat)
    requires Filed(m, bucket, ch, all) && b < |bucket| && |ch| == |bucket| && k < |ch[b]| && ch[b][k] == e
        && 0 < e < |m|
    requires m[e].next < |m| && m[e].prev < |m| && b == m[e].temp % |bucket|
    requires m[e].next != 0 ==> m[e].next in ch[b]
    requires m[e].prev != 0 ==> m[e].prev in ch[b]
    requires var r, p, n := LinkOut(m, e, bucket[b] == e), m[e].prev, m[e].next;
             && (n != 0 ==> r[n] == m[n].(prev := p))
             && (p != 0 ==> r[p] == m[p].(next := n))
             && forall x :: 0 <= x < |m| && (x != n || n == 0) && (x != p || p == 0) ==> r[x] == m[x]
    requires Chained(LinkOut(m, e, bucket[b] == e), if bucket[b] == e then m[e].next else bucket[b],
        ch[b][..k] + ch[b][k + 1..])
    requires e !in ch[b][..k] + ch[b][k + 1..] && forall x :: x in ch[b] <==> x in ch[b][..k] + ch[b][k + 1..] || x == e
    ensures Filed(LinkOut(m, e, bucket[b] == e), if bucket[b] == e then bucket[b := m[e].next] else bucket,
                  ch[b := ch[b][..k] + ch[b][k + 1..]], all - {e})
  {
    var r, rest := LinkOut(m, e, bucket[b] == e), ch[b][..k] + ch[b][k + 1..];
    var bucket' := if bucket[b] == e then bucket[b := m[e].next] else bucket;
    assert forall x :: 0 <= x < |m| ==> r[x].temp == m[x].temp;
    FiledAt(m, bucket, ch, all, b);
    hide Chained, LinkOut, NoDup, Holds;
    forall d: nat | d < |bucket'|
      ensures Chained(r, bucket'[d], ch[b := rest][d]) && Holds(r, ch[b := rest][d], d, |bucket'|, all - {e})
    {
      if d != b {
        FiledAt(m, bucket, ch, all, d);
        HeadOf(m, bucket[d], ch[d]);
        FileOutOther(m, r, bucket, ch, all, e, b, d);
      }
    }
  }

  lemma FileOutOther<T>(m: seq<Node<T>>, r: seq<Node<T>>, bucket: seq<nat>, ch: seq<seq<nat>>, all: set<nat>, e: nat,
                        b: nat, d: nat)
    requires |ch| == |bucket| && d < |bucket| && b < |bucket| && d != b && |r| == |m|
    requires e < |m| && m[e].temp % |bucket| == b
    requires Chained(m, bucket[d], ch[d]) && Holds(m, ch[d], d, |bucket|, all) && Holds(m, ch[b], b, |bucket|, all)
    requires forall x :: x in ch[d] ==> 0 < x < |m|
    requires m[e].next != 0 ==> m[e].next in ch[b]
    requires m[e].prev != 0 ==> m[e].prev in ch[b]
    requires forall x :: 0 <= x < |m| ==> r[x].temp == m[x].temp
    requires forall x :: 0 <= x < |m| && (x != m[e].next || x == 0) && (x != m[e].prev || x == 0) ==> r[x] == m[x]
    ensures Chained(r, bucket[d], ch[d]) && Holds(r, ch[d], d, |bucket|, all - {e})
  {
    hide Chained;
    assert SameLink(m, r, ch[d]);
    KeepBucket(m, r, bucket[d], ch[d], d, |bucket|, all, all - {e}, e);
  }
}
