/** The invariant of the hash set and what each of its operations does to it. */
module HashSpec {
  import opened SlotLists
  import opened HashChains

  const UINT32_MAX: nat := 0xFFFF_FFFF
  const UINT32_RANGE: nat := 0x1_0000_0000

  /** What the set asks of its element type: equality is an equivalence, and equal values have
      equal hash values. */
  ghost predicate Laws<T(!new)>(hash: T -> nat, equal: (T, T) -> bool) {
    && (forall x :: equal(x, x))
    && (forall x, y :: equal(x, y) ==> equal(y, x) && hash(x) == hash(y))
    && (forall x, y, z {:trigger equal(x, y), equal(y, z)} :: equal(x, y) && equal(y, z) ==> equal(x, z))
  }

  /** How many buckets go with a number of slots; `load` is a percentage. */
  function Buckets(capacity: nat, load: nat): nat {
    var b := capacity * load / 100;
    if b >= UINT32_MAX then UINT32_MAX - 1 else b
  }

  /** The load percentage of the slots, rounded down, but less than the largest 32-bit number. */
  lemma BucketsMost(capacity: nat, load: nat, b: nat)
    ensures b <= Buckets(capacity, load) <==> b * 100 <= capacity * load && b < UINT32_MAX
  {
  }

  lemma BucketsPositive(capacity: nat, load: nat)
    requires capacity >= 16 && 16 * load >= 100
    ensures Buckets(capacity, load) > 0
  {
    assert capacity * load >= 16 * load;
  }

  ghost function Actives<T>(m: seq<Node<T>>): set<nat> { set x: nat | x < |m| && m[x].active }

  /** The set of values: what the active slots hold. */
  ghost function Values<T(!new)>(m: seq<Node<T>>): iset<T> { iset x: nat | x < |m| && m[x].active :: m[x].data }

  /** Cached hash values are right. */
  ghost predicate Keyed<T(!new)>(hash: T -> nat, m: seq<Node<T>>) {
    forall x: nat :: x < |m| && m[x].active ==> m[x].temp == hash(m[x].data)
  }

  /** No two active slots hold equal values. */
  ghost predicate Distinct<T(!new)>(equal: (T, T) -> bool, m: seq<Node<T>>) {
    forall x: nat, y: nat :: x < |m| && y < |m| && m[x].active && m[y].active && x != y ==> !equal(m[x].data, m[y].data)
  }

  ghost predicate Sized<T>(m: seq<Node<T>>, buckets: nat, count: nat, next: nat, capacity: nat, load: nat) {
    && count == |Actives(m)| && capacity == |m| && 1 <= next && 16 * load >= 100
    && (if capacity == 0 then next == 1 && buckets == 0
        else 16 <= capacity && next <= capacity && buckets == Buckets(capacity, load))
    && forall x: nat :: x < |m| && m[x].active ==> 0 < x < next
  }

  /** Everything but the chains. */
  ghost predicate Loose<T(!new)>(hash: T -> nat, equal: (T, T) -> bool, load: nat, m: seq<Node<T>>, buckets: nat,
                                 count: nat, next: nat, capacity: nat) {
    Laws(hash, equal) && Distinct(equal, m) && Sized(m, buckets, count, next, capacity, load)
  }

  ghost predicate Good<T(!new)>(hash: T -> nat, equal: (T, T) -> bool, load: nat, m: seq<Node<T>>, bucket: seq<nat>,
                                ch: seq<seq<nat>>,
                                count: nat, next: nat, capacity: nat) {
    Loose(hash, equal, load, m, |bucket|, count, next, capacity) && Keyed(hash, m) && Filed(m, bucket, ch, Actives(m))
  }

  // ------------------------------------------------------------------ membership

  /** An equal value is in the set. */
  ghost predicate Has<T(!new)>(equal: (T, T) -> bool, s: iset<T>, v: T) { exists w :: w in s && equal(w, v) }

  /** A plain scan over all slots comes to the same answer. */
  ghost predicate ScanFinds<T(!new)>(equal: (T, T) -> bool, m: seq<Node<T>>, v: T, next: nat, i: nat) {
    if i == next then forall x: nat :: x < |m| && m[x].active ==> !equal(m[x].data, v)
    else 0 < i < next && i < |m| && m[i].active && equal(m[i].data, v)
  }

  lemma ScanHas<T(!new)>(equal: (T, T) -> bool, m: seq<Node<T>>, v: T, next: nat, i: nat)
    requires ScanFinds(equal, m, v, next, i)
    ensures i == next <==> !Has(equal, Values(m), v)
  {
    if i != next {
      assert m[i].data in Values(m);
    }
  }

  /** A chain without an equal value means that no active slot has one. */
  lemma ChainDecides<T(!new)>(hash: T -> nat, equal: (T, T) -> bool, m: seq<Node<T>>, bucket: seq<nat>,
                              ch: seq<seq<nat>>, v: T, next: nat)
    requires Laws(hash, equal) && Keyed(hash, m) && Filed(m, bucket, ch, Actives(m)) && |bucket| > 0
    requires forall k :: 0 <= k < |ch[hash(v) % |bucket|]| ==>
        ch[hash(v) % |bucket|][k] < |m| && !equal(m[ch[hash(v) % |bucket|][k]].data, v)
    ensures ScanFinds(equal, m, v, next, next)
  {
    var b := hash(v) % |bucket|;
    FiledAt(m, bucket, ch, Actives(m), b);
    forall x: nat | x < |m| && m[x].active
      ensures !equal(m[x].data, v)
    {
      assert x in Actives(m);
      assert m[x].temp % |bucket| == b ==> x in ch[b];
    }
  }

  // ------------------------------------------------------------------ setting flags

  function SetActive<T>(m: seq<Node<T>>, i: nat, a: bool): (r: seq<Node<T>>)
    requires i < |m|
    ensures |r| == |m|
  {
    m[i := m[i].(active := a)]
  }

  function SetValue<T>(m: seq<Node<T>>, i: nat, v: T, h: nat): (r: seq<Node<T>>)
    requires i < |m|
    ensures |r| == |m|
  {
    m[i := m[i].(data := v, temp := h)]
  }

  /** Values, activity and cached hashes are the same. */
  ghost predicate SameValues<T(!new)>(m: seq<Node<T>>, r: seq<Node<T>>) {
    |r| == |m| && forall x ::
        0 <= x < |m| ==> r[x].active == m[x].active && r[x].temp == m[x].temp && r[x].data == m[x].data
  }

  lemma FiledFrame<T>(m: seq<Node<T>>, r: seq<Node<T>>, bucket: seq<nat>, ch: seq<seq<nat>>, all: set<nat>)
    requires Filed(m, bucket, ch, all) && |m| == |r|
    requires forall x ::
        x in all && x < |m| ==> r[x].prev == m[x].prev && r[x].next == m[x].next && r[x].temp == m[x].temp
    ensures Filed(r, bucket, ch, all)
  {
    forall b: nat | b < |ch|
      ensures Chained(r, bucket[b], ch[b]) && Holds(r, ch[b], b, |bucket|, all)
    {
      FiledAt(m, bucket, ch, all, b);
      HeadOf(m, bucket[b], ch[b]);
      FiledFrameAt(m, r, bucket[b], ch[b], b, |bucket|, all);
    }
  }

  lemma FiledFrameAt<T>(m: seq<Node<T>>, r: seq<Node<T>>, head: nat, c: seq<nat>, b: nat, n: nat, all: set<nat>)
    requires n > 0 && Chained(m, head, c) && Holds(m, c, b, n, all) && |m| == |r| && forall x :: x in c ==> 0 < x < |m|
    requires forall x ::
        x in all && x < |m| ==> r[x].prev == m[x].prev && r[x].next == m[x].next && r[x].temp == m[x].temp
    ensures Chained(r, head, c) && Holds(r, c, b, n, all)
  {
    hide Chained;
    assert SameLink(m, r, c);
    ChainedFrame(m, r, head, c);
  }

  lemma SameActives<T(!new)>(m: seq<Node<T>>, r: seq<Node<T>>)
    requires SameValues(m, r)
    ensures Actives(r) == Actives(m) && Values(r) == Values(m)
  {
    assert forall x: nat :: x < |m| && m[x].active ==> r[x].active && r[x].data == m[x].data;
    assert forall x: nat :: x < |r| && r[x].active ==> m[x].active && r[x].data == m[x].data;
  }

  // ------------------------------------------------------------------ inserting

  /** The array once slot `e` is active and linked in. */
  function Inserted<T>(m: seq<Node<T>>, e: nat, head: nat): (r: seq<Node<T>>)
    requires e < |m| && head < |m|
    ensures |r| == |m|
  {
    LinkIn(SetActive(m, e, true), e, head)
  }

  lemma InsertedAt<T(!new)>(m: seq<Node<T>>, e: nat, head: nat)
    requires e < |m| && head < |m| && e != head
    ensures SameValues(SetActive(m, e, true), Inserted(m, e, head))
  {
    LinkInAt(SetActive(m, e, true), e, head);
    hide LinkIn;
  }

  /** Activating a slot. */
  lemma Activate<T(!new)>(m: seq<Node<T>>, e: nat)
    requires e < |m| && !m[e].active
    ensures var r := SetActive(m, e, true);
            && Actives(r) == Actives(m) + {e} && e !in Actives(m) && |Actives(r)| == |Actives(m)| + 1
            && Values(r) == Values(m) + iset{m[e].data}
  {
    var r := SetActive(m, e, true);
    assert Actives(r) == Actives(m) + {e};
    forall v
      ensures v in Values(r) <==> v in Values(m) || v == m[e].data
    {
      if v in Values(m) {
        var x: nat :| x < |m| && m[x].active && m[x].data == v;
        assert r[x].active && r[x].data == v;
      }
      if v == m[e].data { assert r[e].active && r[e].data == v; }
      if v in Values(r) && v != m[e].data {
        var x: nat :| x < |r| && r[x].active && r[x].data == v;
        assert m[x].active && m[x].data == v;
      }
    }
  }

  /** Inserting slot `e`, which holds a new value and its hash, keeps the invariant. */
  lemma GoodInserted<T(!new)>(hash: T -> nat, equal: (T, T) -> bool, load: nat, m: seq<Node<T>>, bucket: seq<nat>,
                              ch: seq<seq<nat>>,
                              count: nat, next: nat, capacity: nat, e: nat)
    requires Good(hash, equal, load, m, bucket, ch, count, next, capacity)
    requires 0 < e < next && e < |m| && !m[e].active && m[e].temp == hash(m[e].data)
    requires ScanFinds(equal, m, m[e].data, next, next)
    ensures |bucket| > 0 && |ch| == |bucket|
    ensures var b := m[e].temp % |bucket|;
            && bucket[b] < |m| && bucket[b] != e
            && (bucket[b] != 0 ==> m[bucket[b]].active && m[bucket[b]].prev == 0)
            && Good(hash, equal, load, Inserted(m, e, bucket[b]), bucket[b := e], ch[b := [e] + ch[b]], count + 1,
                next, capacity)
            && Values(Inserted(m, e, bucket[b])) == Values(m) + iset{m[e].data}
            && SameValues(SetActive(m, e, true), Inserted(m, e, bucket[b]))
  {
    BucketsPositive(capacity, load);
    var b, m1 := m[e].temp % |bucket|, SetActive(m, e, true);
    hide Laws, Filed, Buckets, Values;
    Activate(m, e);
    FiledFrame(m, m1, bucket, ch, Actives(m));
    FiledAt(m, bucket, ch, Actives(m), b);
    FileIn(m1, bucket, ch, Actives(m), e);
    InsertedAt(m, e, bucket[b]);
    SameActives(m1, Inserted(m, e, bucket[b]));
    hide Actives, Inserted;
    InsertedRest(hash, equal, m, Inserted(m, e, bucket[b]), e, next);
  }

  lemma InsertedRest<T(!new)>(hash: T -> nat, equal: (T, T) -> bool, m: seq<Node<T>>, r: seq<Node<T>>, e: nat,
                              next: nat)
    requires Laws(hash, equal) && Keyed(hash, m) && Distinct(equal, m) && e < |m| && m[e].temp == hash(m[e].data)
    requires ScanFinds(equal, m, m[e].data, next, next) && SameValues(SetActive(m, e, true), r)
    ensures Keyed(hash, r) && Distinct(equal, r)
  {
  }

  // ------------------------------------------------------------------ extracting

  /** The array once slot `e` is inactive and unlinked. */
  function Extracted<T>(m: seq<Node<T>>, e: nat, first: bool): (r: seq<Node<T>>)
    requires e < |m| && m[e].next < |m| && m[e].prev < |m|
    ensures |r| == |m|
  {
    LinkOut(SetActive(m, e, false), e, first)
  }

  lemma Deactivate<T(!new)>(equal: (T, T) -> bool, hash: T -> nat, m: seq<Node<T>>, e: nat)
    requires e < |m| && m[e].active && Laws(hash, equal) && Distinct(equal, m)
    ensures var r := SetActive(m, e, false);
            && Actives(r) == Actives(m) - {e} && e in Actives(m) && |Actives(r)| == |Actives(m)| - 1
            && Values(r) == iset v | v in Values(m) && !equal(v, m[e].data)
  {
    var r := SetActive(m, e, false);
    assert Actives(r) == Actives(m) - {e};
    forall v
      ensures v in Values(r) <==> v in Values(m) && !equal(v, m[e].data)
    {
      if v in Values(r) {
        var x: nat :| x < |r| && r[x].active && r[x].data == v;
        assert m[x].active && x != e && m[x].data == v;
      }
      if v in Values(m) && !equal(v, m[e].data) {
        var x: nat :| x < |m| && m[x].active && m[x].data == v;
        assert x != e;
        assert r[x].active && r[x].data == v;
      }
    }
  }

  /** The chains without slot `e`. */
  lemma FiledExtracted<T(!new)>(m: seq<Node<T>>, bucket: seq<nat>, ch: seq<seq<nat>>, all: set<nat>, e: nat)
    returns (ch': seq<seq<nat>>)
    requires Filed(m, bucket, ch, all) && |bucket| > 0 && e < |m| && e in all
    ensures m[e].next < |m| && m[e].prev < |m|
    ensures var b := m[e].temp % |bucket|;
            && bucket[b] != 0 && (bucket[b] == e <==> m[e].prev == 0)
            && m[e].next != e && m[e].prev != e && (m[e].next == m[e].prev ==> m[e].next == 0)
            && (m[e].next != 0 ==> m[e].next in all && m[m[e].next].prev == e)
            && (m[e].prev != 0 ==> m[e].prev in all && m[m[e].prev].next == e)
            && Filed(Extracted(m, e, bucket[b] == e), if bucket[b] == e then bucket[b := m[e].next] else bucket, ch',
                all - {e})
            && SameValues(SetActive(m, e, false), Extracted(m, e, bucket[b] == e))
  {
    hide Filed, LinkOut, SameValues;
    var b, m1 := m[e].temp % |bucket|, SetActive(m, e, false);
    FiledFrame(m, m1, bucket, ch, all);
    var k := FileOut(m1, bucket, ch, all, e);
    ch' := ch[b := ch[b][..k] + ch[b][k + 1..]];
    ExtractedAt(m, bucket, ch, all, e);
  }

  /** Extracting slot `e` keeps the invariant and takes exactly the equal value away. */
  lemma GoodExtracted<T(!new)>(hash: T -> nat, equal: (T, T) -> bool, load: nat, m: seq<Node<T>>, bucket: seq<nat>,
                               ch: seq<seq<nat>>,
                               count: nat, next: nat, capacity: nat, e: nat)
    returns (ch': seq<seq<nat>>)
    requires Good(hash, equal, load, m, bucket, ch, count, next, capacity) && e < |m| && m[e].active
    ensures |bucket| > 0 && m[e].next < |m| && m[e].prev < |m| && count > 0
    ensures var b := m[e].temp % |bucket|;
            && bucket[b] != 0 && (bucket[b] == e <==> m[e].prev == 0)
            && m[e].next != e && m[e].prev != e && (m[e].next == m[e].prev ==> m[e].next == 0)
            && (m[e].next != 0 ==> m[m[e].next].active && m[m[e].next].prev == e)
            && (m[e].prev != 0 ==> m[m[e].prev].active && m[m[e].prev].next == e)
            && Good(hash, equal, load, Extracted(m, e, bucket[b] == e),
                if bucket[b] == e then bucket[b := m[e].next] else bucket, ch', count - 1, next, capacity)
            && (Values(Extracted(m, e, bucket[b] == e)) == iset v | v in Values(m) && !equal(v, m[e].data))
            && SameValues(SetActive(m, e, false), Extracted(m, e, bucket[b] == e))
  {
    BucketsPositive(capacity, load);
    var b, m1 := m[e].temp % |bucket|, SetActive(m, e, false);
    hide Filed, Buckets, Values, LinkOut, Extracted;
    Deactivate(equal, hash, m, e);
    hide Laws;
    ch' := FiledExtracted(m, bucket, ch, Actives(m), e);
    var r := Extracted(m, e, bucket[b] == e);
    SameActives(m1, r);
    hide Actives;
    LooseExtracted(hash, equal, m, r, e);
  }

  lemma LooseExtracted<T(!new)>(hash: T -> nat, equal: (T, T) -> bool, m: seq<Node<T>>, r: seq<Node<T>>, e: nat)
    requires Keyed(hash, m) && Distinct(equal, m) && e < |m| && SameValues(SetActive(m, e, false), r)
    ensures Keyed(hash, r) && Distinct(equal, r)
    ensures |r| == |m| && forall x: nat :: x < |r| && r[x].active ==> m[x].active
  {
  }

  lemma ExtractedAt<T(!new)>(m: seq<Node<T>>, bucket: seq<nat>, ch: seq<seq<nat>>, all: set<nat>, e: nat)
    requires Filed(m, bucket, ch, all) && |bucket| > 0 && e < |m| && e in all
    ensures m[e].next < |m| && m[e].prev < |m|
    ensures m[e].next != e && m[e].prev != e && (m[e].next == m[e].prev ==> m[e].next == 0)
    ensures SameValues(SetActive(m, e, false), Extracted(m, e, bucket[m[e].temp % |bucket|] == e))
  {
    var b := m[e].temp % |bucket|;
    FiledAt(m, bucket, ch, all, b);
    assert e in ch[b];
    var k :| 0 <= k < |ch[b]| && ch[b][k] == e;
    InChain(m, bucket[b], ch[b], k);
    hide LinkOut;
  }

  // ------------------------------------------------------------------ rebuilding the chains

  /** The active slots below `i`. */
  ghost function Below<T>(m: seq<Node<T>>, i: nat): set<nat> { set x | x in Actives(m) && x < i }

  /** What the rebuilding loop has done when it comes to slot `i`: `m0` is the array before it. */
  ghost predicate Rebuilt<T(!new)>(hash: T -> nat, rehash: bool, m0: seq<Node<T>>, m: seq<Node<T>>, bucket: seq<nat>,
                                   ch: seq<seq<nat>>, i: nat) {
    && |m| == |m0| && Filed(m, bucket, ch, Below(m0, i))
    && (forall x: nat :: x < |m| ==> m[x].active == m0[x].active && m[x].data == m0[x].data)
    && (forall x: nat ::
           x < |m| && m[x].active ==> m[x].temp == if rehash && x < i then hash(m0[x].data) else m0[x].temp)
  }

  lemma RebuildStart<T(!new)>(hash: T -> nat, rehash: bool, m: seq<Node<T>>, n: nat)
    requires !(|m| > 0 && m[0].active)
    ensures Rebuilt(hash, rehash, m, m, seq(n, _ => 0), seq(n, _ => []), 1) && Below(m, 1) == {}
  {
    assert Below(m, 1) == {};
  }

  lemma RebuildSkip<T(!new)>(hash: T -> nat, rehash: bool, m0: seq<Node<T>>, m: seq<Node<T>>, bucket: seq<nat>,
                             ch: seq<seq<nat>>, i: nat)
    requires Rebuilt(hash, rehash, m0, m, bucket, ch, i) && i < |m| && !m[i].active
    ensures Rebuilt(hash, rehash, m0, m, bucket, ch, i + 1) && Below(m0, i + 1) == Below(m0, i)
  {
    hide Filed;
    assert Below(m0, i + 1) == Below(m0, i);
  }

  function SetTemp<T>(m: seq<Node<T>>, i: nat, h: nat): (r: seq<Node<T>>)
    requires i < |m|
    ensures |r| == |m|
  {
    m[i := m[i].(temp := h)]
  }

  lemma RebuildStep<T(!new)>(hash: T -> nat, rehash: bool, m0: seq<Node<T>>, m: seq<Node<T>>, bucket: seq<nat>,
                             ch: seq<seq<nat>>, i: nat)
    requires Rebuilt(hash, rehash, m0, m, bucket, ch, i) && 0 < i < |m| && m[i].active && |bucket| > 0
    ensures |ch| == |bucket|
    ensures var m1 := if rehash then SetTemp(m, i, hash(m[i].data)) else m;
            var b := m1[i].temp % |bucket|;
            && bucket[b] < |m| && bucket[b] != i
            && (bucket[b] != 0 ==> m[bucket[b]].active && m[bucket[b]].prev == 0)
            && Rebuilt(hash, rehash, m0, LinkIn(m1, i, bucket[b]), bucket[b := i], ch[b := [i] + ch[b]], i + 1)
            && Below(m0, i + 1) == Below(m0, i) + {i} && i !in Below(m0, i)
  {
    var m1 := if rehash then SetTemp(m, i, hash(m[i].data)) else m;
    var b := m1[i].temp % |bucket|;
    assert Below(m0, i + 1) == Below(m0, i) + {i};
    assert i !in Below(m0, i);
    FiledAt(m, bucket, ch, Below(m0, i), b);
    hide Filed;
    FiledFrame(m, m1, bucket, ch, Below(m0, i));
    FileIn(m1, bucket, ch, Below(m0, i), i);
    LinkInAt(m1, i, bucket[b]);
    hide LinkIn;
  }

  lemma RebuildDone<T(!new)>(hash: T -> nat, equal: (T, T) -> bool, rehash: bool, load: nat, m0: seq<Node<T>>,
                             m: seq<Node<T>>,
                             bucket: seq<nat>, ch: seq<seq<nat>>, i: nat, count: nat, next: nat,
                             capacity: nat)
    requires Loose(hash, equal, load, m0, |bucket|, count, next, capacity) && (rehash || Keyed(hash, m0))
    requires Rebuilt(hash, rehash, m0, m, bucket, ch, i) && (i >= |m0| || |Below(m0, i)| >= count)
    ensures Good(hash, equal, load, m, bucket, ch, count, next, capacity) && Values(m) == Values(m0)
        && Actives(m) == Actives(m0)
  {
    SubsetCard(Below(m0, i), Actives(m0));
    if i >= |m0| { assert Below(m0, i) == Actives(m0); }
    assert Actives(m) == Actives(m0);
    hide Filed, Laws, Values, Buckets;
    assert forall x: nat :: x < |m| && m[x].active ==> x in Below(m0, i);
  }

  // ------------------------------------------------------------------ compaction

  /** Moves the value of slot `j` to slot `i`. */
  function MoveSlot<T>(m: seq<Node<T>>, j: nat, i: nat): (r: seq<Node<T>>)
    requires j < |m| && i < |m|
    ensures |r| == |m|
  {
    var m1 := m[i := m[i].(data := m[j].data, temp := m[j].temp, active := true)];
    m1[j := m1[j].(active := false)]
  }

  lemma LooseMoved<T(!new)>(hash: T -> nat, equal: (T, T) -> bool, load: nat, m: seq<Node<T>>, buckets: nat,
                            count: nat, next: nat, capacity: nat, j: nat, i: nat)
    requires Loose(hash, equal, load, m, buckets, count, next, capacity) && Keyed(hash, m)
    requires 0 < i < next && i < j < |m| && m[j].active && !m[i].active
    ensures var r := MoveSlot(m, j, i);
            && Loose(hash, equal, load, r, buckets, count, next, capacity) && Keyed(hash, r)
            && Values(r) == Values(m) && Actives(r) == Actives(m) - {j} + {i}
  {
    var r := MoveSlot(m, j, i);
    assert Actives(r) == Actives(m) - {j} + {i};
    assert j in Actives(m) && i !in Actives(m);
    hide Laws, Buckets;
    MovedValues(m, j, i);
    hide Values;
    MovedDistinct(equal, m, j, i);
  }

  /** Moving the last active slot into the first free one fills one more place at the front. */
  lemma CompactStep<T(!new)>(hash: T -> nat, equal: (T, T) -> bool, load: nat, m: seq<Node<T>>, buckets: nat,
                             count: nat, next: nat, capacity: nat, j: nat, i: nat)
    requires Loose(hash, equal, load, m, buckets, count, next, capacity) && Keyed(hash, m)
    requires 0 < i < next && i < j < |m| && m[j].active && !m[i].active
    requires forall x: nat :: 1 <= x < i ==> x in Actives(m)
    requires forall x :: x in Actives(m) ==> x <= j
    ensures var r := MoveSlot(m, j, i);
            && Loose(hash, equal, load, r, buckets, count, next, capacity) && Keyed(hash, r) && Values(r) == Values(m)
            && (forall x: nat :: 1 <= x <= i ==> x in Actives(r)) && (forall x :: x in Actives(r) ==> x <= j - 1)
  {
    assert i !in Actives(m);
    LooseMoved(hash, equal, load, m, buckets, count, next, capacity, j, i);
    LastMoved(Actives(m), Actives(MoveSlot(m, j, i)), i, j);
  }

  lemma MovedDistinct<T(!new)>(equal: (T, T) -> bool, m: seq<Node<T>>, j: nat, i: nat)
    requires Distinct(equal, m) && i < j < |m| && m[j].active && !m[i].active
    ensures Distinct(equal, MoveSlot(m, j, i))
  {
    var r := MoveSlot(m, j, i);
    forall x: nat, y: nat | x < |m| && y < |m| && r[x].active && r[y].active && x != y
      ensures !equal(r[x].data, r[y].data)
    {
      var x', y' := if x == i then j else x, if y == i then j else y;
      assert r[x].data == m[x'].data && m[x'].active && r[y].data == m[y'].data && m[y'].active && x' != y';
    }
  }

  lemma MovedValues<T(!new)>(m: seq<Node<T>>, j: nat, i: nat)
    requires i < j < |m| && m[j].active && !m[i].active
    ensures Values(MoveSlot(m, j, i)) == Values(m)
  {
    var r := MoveSlot(m, j, i);
    forall v
      ensures v in Values(r) <==> v in Values(m)
    {
      if v in Values(m) {
        var x: nat :| x < |m| && m[x].active && m[x].data == v;
        var y := if x == j then i else x;
        assert y < |r| && r[y].active && r[y].data == v;
      }
      if v in Values(r) {
        var x: nat :| x < |r| && r[x].active && r[x].data == v;
        var y := if x == i then j else x;
        assert y < |m| && m[y].active && m[y].data == v;
      }
    }
  }

  lemma LooseCompact<T(!new)>(hash: T -> nat, equal: (T, T) -> bool, load: nat, m: seq<Node<T>>, buckets: nat,
                              count: nat, next: nat, capacity: nat)
    requires Loose(hash, equal, load, m, buckets, count, next, capacity) && count + 1 <= next
    requires forall x: nat :: 1 <= x <= count ==> x in Actives(m)
    ensures Loose(hash, equal, load, m, buckets, count, count + 1, capacity)
  {
    CompactSet(Actives(m));
    forall x: nat | x < |m| && m[x].active
      ensures 0 < x < count + 1
    {
      assert x in Actives(m);
    }
    hide Laws, Distinct, Actives;
  }

  lemma LooseNext<T(!new)>(hash: T -> nat, equal: (T, T) -> bool, load: nat, m: seq<Node<T>>, buckets: nat,
                           count: nat, next: nat, capacity: nat)
    requires Loose(hash, equal, load, m, buckets, count, next, capacity)
    ensures count + 1 <= next && forall x :: x in Actives(m) ==> 0 < x < next && x < |m|
    ensures forall x: nat :: x < |m| ==> (m[x].active <==> x in Actives(m))
    ensures count == |Actives(m)| && capacity == |m|
        && (if capacity > 0 then next <= capacity && capacity >= 16 && buckets > 0 else next == 1)
  {
    SubsetCard(Actives(m), Range(next - 1));
    if capacity > 0 { BucketsPositive(capacity, load); }
  }

  // ------------------------------------------------------------------ resizing

  /** The array after a change of capacity: kept slots, then cleared ones. */
  function Resized<T>(m: seq<Node<T>>, capacity: nat, blank: T): (r: seq<Node<T>>)
    requires capacity > 0
    ensures |r| == capacity
  {
    var r := seq(capacity, x requires 0 <= x < capacity => if x < |m| then m[x] else Node(false, 0, 0, 0, blank));
    SetActive(r, 0, false)
  }

  lemma LooseResized<T(!new)>(hash: T -> nat, equal: (T, T) -> bool, load: nat, m: seq<Node<T>>, buckets: nat,
                              count: nat, next: nat, capacity: nat,
                              slots: nat, blank: T)
    requires Loose(hash, equal, load, m, buckets, count, next, capacity) && Keyed(hash, m) && next <= slots
        && 16 <= slots
    ensures var r := Resized(m, slots, blank);
            && Loose(hash, equal, load, r, Buckets(slots, load), count, next, slots) && Keyed(hash, r)
            && Values(r) == Values(m)
  {
    var r := Resized(m, slots, blank);
    assert forall x: nat :: x < |r| && r[x].active ==> x < |m| && r[x] == m[x];
    assert forall x: nat :: x < |m| && m[x].active ==> x < |r| && r[x] == m[x];
    assert Actives(r) == Actives(m);
    hide Resized, Laws, Buckets, Actives;
    hide Values;
  }

  // ------------------------------------------------------------------ writing inactive slots

  /** A value written to an inactive slot is not yet in the set. */
  lemma GoodWrite<T(!new)>(hash: T -> nat, equal: (T, T) -> bool, load: nat, m: seq<Node<T>>, bucket: seq<nat>,
                           ch: seq<seq<nat>>,
                           count: nat, next: nat, capacity: nat, e: nat, v: T)
    requires Good(hash, equal, load, m, bucket, ch, count, next, capacity) && e < |m| && !m[e].active
    ensures var r := SetValue(m, e, v, hash(v));
            && Good(hash, equal, load, r, bucket, ch, count, next, capacity) && Values(r) == Values(m)
            && (ScanFinds(equal, m, v, next, next) ==> ScanFinds(equal, r, v, next, next))
  {
    var r := SetValue(m, e, v, hash(v));
    assert Actives(r) == Actives(m);
    hide Laws, Filed, Buckets;
    FiledFrame(m, r, bucket, ch, Actives(m));
    hide Values, Actives;
  }

  /** The slot at `next` may be claimed. */
  lemma GoodNextSlot<T(!new)>(hash: T -> nat, equal: (T, T) -> bool, load: nat, m: seq<Node<T>>, bucket: seq<nat>,
                              ch: seq<seq<nat>>,
                              count: nat, next: nat, capacity: nat, v: T)
    requires Good(hash, equal, load, m, bucket, ch, count, next, capacity) && next < capacity
        && ScanFinds(equal, m, v, next, next)
    ensures Good(hash, equal, load, m, bucket, ch, count, next + 1, capacity) && !m[next].active
    ensures ScanFinds(equal, m, v, next + 1, next + 1)
  {
    hide Laws, Filed, Buckets, Keyed, Distinct;
  }

  /** The slot at `next` receives a new value and is claimed. */
  lemma GoodClaim<T(!new)>(hash: T -> nat, equal: (T, T) -> bool, load: nat, m: seq<Node<T>>, bucket: seq<nat>,
                           ch: seq<seq<nat>>,
                           count: nat, next: nat, capacity: nat, v: T)
    requires Good(hash, equal, load, m, bucket, ch, count, next, capacity) && next < capacity
        && ScanFinds(equal, m, v, next, next)
    ensures next < |m|
    ensures var r := SetValue(m, next, v, hash(v));
            && Good(hash, equal, load, r, bucket, ch, count, next + 1, capacity) && Values(r) == Values(m)
                && !r[next].active
            && ScanFinds(equal, r, v, next + 1, next + 1)
  {
    NextFree(hash, equal, load, m, |bucket|, count, next, capacity);
    hide Good, Loose;
    GoodWrite(hash, equal, load, m, bucket, ch, count, next, capacity, next, v);
    GoodNextSlot(hash, equal, load, SetValue(m, next, v, hash(v)), bucket, ch, count, next, capacity, v);
  }

  lemma NextFree<T(!new)>(hash: T -> nat, equal: (T, T) -> bool, load: nat, m: seq<Node<T>>, buckets: nat, count: nat,
                          next: nat, capacity: nat)
    requires Loose(hash, equal, load, m, buckets, count, next, capacity) && next < capacity
    ensures next < |m| && !m[next].active
  {
  }

  lemma Reflexive<T(!new)>(hash: T -> nat, equal: (T, T) -> bool, v: T)
    requires Laws(hash, equal)
    ensures equal(v, v)
  {
  }

  /** Removing what equals a member is removing what equals any equal value. */
  lemma EqualSame<T(!new)>(hash: T -> nat, equal: (T, T) -> bool, s: iset<T>, x: T, v: T)
    requires Laws(hash, equal) && equal(x, v)
    ensures (iset w | w in s && !equal(w, x)) == (iset w | w in s && !equal(w, v))
  {
    assert equal(v, x);
    forall w
      ensures equal(w, x) <==> equal(w, v)
    {
      assert equal(w, x) && equal(x, v) ==> equal(w, v);
      assert equal(w, v) && equal(v, x) ==> equal(w, x);
    }
  }

  /** After a move nothing active is left at or beyond slot `j`. */
  lemma LastMoved(s: set<nat>, s': set<nat>, i: nat, j: nat)
    requires s' == s - {j} + {i} && i < j && (forall x :: x in s ==> x <= j) && j in s && i !in s
    ensures (forall x :: x in s' ==> x <= j - 1) && |s'| == |s|
    ensures forall x :: x != j && x in s ==> x in s'
    ensures i in s'
  {
  }

  lemma EmptyGood<T(!new)>(hash: T -> nat, equal: (T, T) -> bool, m: seq<Node<T>>, bucket: seq<nat>, ch: seq<seq<nat>>)
    requires |ch| == |bucket| && forall b :: 0 <= b < |bucket| ==> bucket[b] == 0 && ch[b] == []
    requires Actives(m) == {}
    ensures Filed(m, bucket, ch, {}) && Keyed(hash, m) && Distinct(equal, m)
  {
    assert forall x: nat :: x < |m| && m[x].active ==> x in Actives(m);
  }

  lemma GoodLoose<T(!new)>(hash: T -> nat, equal: (T, T) -> bool, load: nat, m: seq<Node<T>>, bucket: seq<nat>,
                           ch: seq<seq<nat>>,
                           count: nat, next: nat, capacity: nat)
    requires Good(hash, equal, load, m, bucket, ch, count, next, capacity)
    ensures count + 1 <= next && capacity == |m|
    ensures if capacity > 0 then next <= capacity && capacity >= 16 else next == 1
  {
    LooseNext(hash, equal, load, m, |bucket|, count, next, capacity);
  }
}
