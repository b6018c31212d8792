/** The hash set: slots of an array, threaded into bucket chains by intrusive links. */
module HashSets {
  import opened SlotLists
  import opened HashChains
  import opened HashSpec

  class HashSet<T(!new)> {
    const hash: T -> nat
    const equal: (T, T) -> bool
    const load: nat
    const blank: T
    var capacity: nat
    var next: nat
    var count: nat
    var node: seq<Node<T>>
    var bucket: seq<nat>
    ghost var chains: seq<seq<nat>>

    ghost predicate Valid()
      reads this
    {
      Good(hash, equal, load, node, bucket, chains, count, next, capacity)
    }

    /** Full with nothing in it: the state from which the set cannot make room. */
    predicate Stuck()
      reads this
    {
      capacity > 0 && next >= capacity && count == 0
    }

    // ---------------------------------------------------------------- searching

    /** Searches one bucket: the slot of an equal value, or `next`. */
    method FindIn(b: nat, value: T) returns (i: nat)
      requires Valid() && |bucket| > 0 && b == hash(value) % |bucket|
      ensures ScanFinds(equal, node, value, next, i)
    {
      hide Filed, Laws, Distinct, Chained, Buckets;
      LooseNext(hash, equal, load, node, |bucket|, count, next, capacity);
      FiledAt(node, bucket, chains, Actives(node), b);
      HeadOf(node, bucket[b], chains[b]);
      ghost var k, c := 0, chains[b];
      i := bucket[b];
      while i != 0
        invariant k <= |c| && i == SlotAt(c, k)
        invariant forall j :: 0 <= j < k ==> c[j] < |node| && !equal(node[c[j]].data, value)
        decreases |c| - k
      {
        InChain(node, bucket[b], c, k);
        assert c[k] in c && c[k] in Actives(node);
        assert count < next && i < next && node[i].active;
        if equal(node[i].data, value) {
          return;
        }
        i, k := node[i].next, k + 1;
      }
      if k < |c| {
        InChain(node, bucket[b], c, k);
      }
      ChainDecides(hash, equal, node, bucket, chains, value, next);
      i := next;
    }

    /** The slot of an equal value, or `next`. */
    method Find(value: T) returns (i: nat)
      requires Valid()
      ensures ScanFinds(equal, node, value, next, i)
      ensures i == next <==> !Has(equal, Values(node), value)
    {
      hide Filed, Laws, Distinct, Chained, Buckets, Has, Values;
      LooseNext(hash, equal, load, node, |bucket|, count, next, capacity);
      if count == 0 {
        i := next;
      } else {
        i := FindIn(hash(value) % |bucket|, value);
      }
      ScanHas(equal, node, value, next, i);
    }

    method Contains(value: T) returns (found: bool)
      requires Valid()
      ensures found <==> Has(equal, Values(node), value)
    {
      var i := Find(value);
      found := i != next;
    }

    // ---------------------------------------------------------------- inserting

    /** Activates slot `element`, which holds a new value, and hooks it into its bucket. */
    method InsertAt(element: nat)
      requires Valid() && 0 < element < next && element < |node| && !node[element].active
      requires node[element].temp == hash(node[element].data) && ScanFinds(equal, node, node[element].data, next, next)
      modifies `node, `bucket, `count, `chains
      ensures Valid() && count == old(count) + 1
      ensures Values(node) == old(Values(node)) + iset{old(node[element].data)}
      ensures SameValues(SetActive(old(node), element, true), node)
    {
      hide Good, Loose, Laws, Filed, Values, SameValues, ScanFinds;
      GoodInserted(hash, equal, load, node, bucket, chains, count, next, capacity, element);
      var b := node[element].temp % |bucket|;
      var head := bucket[b];
      node := SetActive(node, element, true);
      count := count + 1;
      node := node[element := node[element].(prev := 0, next := head)];
      if head != 0 {
        assert node[head].active && node[head].prev == 0;
        node := node[head := node[head].(prev := element)];
      }
      chains := chains[b := [element] + chains[b]];
      bucket := bucket[b := element];
    }

    /** Inserts the value of a node that belongs to another container: the next slot is taken
        without making room first, so there has to be one unless the value is known already. */
    method InsertForeign(value: T) returns (i: nat, ok: bool)
      requires Valid() && capacity > 0 && (next < capacity || Has(equal, Values(node), value))
      modifies `node, `bucket, `count, `chains, `next
      ensures Valid() && (ok <==> !Has(equal, old(Values(node)), value))
      ensures Values(node) == if ok then old(Values(node)) + iset{value} else old(Values(node))
      ensures count == old(count) + (if ok then 1 else 0) && next == old(next) + (if ok then 1 else 0)
      ensures 0 < i < next && i < |node| && node[i].active && equal(node[i].data, value)
    {
      hide Filed, Laws, Distinct, Buckets, Has, Values, Keyed;
      LooseNext(hash, equal, load, node, |bucket|, count, next, capacity);
      var h := hash(value);
      i := FindIn(h % |bucket|, value);
      ScanHas(equal, node, value, next, i);
      if i != next {
        return i, false;
      }
      GoodClaim(hash, equal, load, node, bucket, chains, count, next, capacity, value);
      node := SetValue(node, next, value, h);
      next := next + 1;
      InsertAt(next - 1);
      Reflexive(hash, equal, value);
      return next - 1, true;
    }

    /** Inserts a value; tells its slot and whether it is new. */
    method Insert(value: T) returns (i: nat, ok: bool)
      requires Valid() && !Stuck() && (next < capacity || capacity < UINT32_RANGE / 2)
      modifies `node, `bucket, `count, `chains, `capacity, `next
      ensures Valid() && (ok <==> !Has(equal, old(Values(node)), value))
      ensures Values(node) == if ok then old(Values(node)) + iset{value} else old(Values(node))
      ensures count == old(count) + (if ok then 1 else 0)
      ensures 0 < i < next && i < |node| && node[i].active && equal(node[i].data, value)
      ensures old(0 < next < capacity) && ok ==> capacity == old(capacity) && next == old(next) + 1
    {
      hide Filed, Laws, Distinct, Buckets, Has, Values, Keyed;
      var _ := Increase();
      LooseNext(hash, equal, load, node, |bucket|, count, next, capacity);
      i, ok := InsertForeign(value);
    }

    /** Constructs the value in the next free slot first, and then looks whether it is new. */
    method Emplace(value: T) returns (i: nat, ok: bool)
      requires Valid() && !Stuck() && (next < capacity || capacity < UINT32_RANGE / 2)
      modifies `node, `bucket, `count, `chains, `capacity, `next
      ensures Valid() && (ok <==> !Has(equal, old(Values(node)), value))
      ensures Values(node) == if ok then old(Values(node)) + iset{value} else old(Values(node))
      ensures count == old(count) + (if ok then 1 else 0)
      ensures 0 < i < next && i < |node| && node[i].active && equal(node[i].data, value)
    {
      hide Filed, Laws, Distinct, Buckets, Has, Values, Keyed;
      var _ := Increase();
      LooseNext(hash, equal, load, node, |bucket|, count, next, capacity);
      GoodWrite(hash, equal, load, node, bucket, chains, count, next, capacity, next, value);
      node := SetValue(node, next, value, hash(value));
      i := FindIn(node[next].temp % |bucket|, node[next].data);
      ScanHas(equal, node, value, next, i);
      if i != next {
        return i, false;
      }
      GoodNextSlot(hash, equal, load, node, bucket, chains, count, next, capacity, value);
      next := next + 1;
      InsertAt(next - 1);
      Reflexive(hash, equal, value);
      return next - 1, true;
    }

    /** Puts the value that `Extract` left in slot `n` back into the set. */
    method InsertNode(n: nat) returns (i: nat, ok: bool)
      requires Valid() && 0 < n < next && n < |node| && !node[n].active
      modifies `node, `bucket, `count, `chains
      ensures Valid() && (ok <==> !Has(equal, old(Values(node)), old(node[n].data)))
      ensures Values(node) == if ok then old(Values(node)) + iset{old(node[n].data)} else old(Values(node))
      ensures count == old(count) + (if ok then 1 else 0) && (ok ==> i == n)
      ensures 0 < i < next && i < |node| && node[i].active && equal(node[i].data, old(node[n].data))
    {
      hide Filed, Laws, Distinct, Buckets, Has, Values, Keyed;
      LooseNext(hash, equal, load, node, |bucket|, count, next, capacity);
      var h := hash(node[n].data);
      i := FindIn(h % |bucket|, node[n].data);
      ScanHas(equal, node, node[n].data, next, i);
      if i != next {
        return i, false;
      }
      GoodWrite(hash, equal, load, node, bucket, chains, count, next, capacity, n, node[n].data);
      assert SetTemp(node, n, h) == SetValue(node, n, node[n].data, h);
      node := SetTemp(node, n, h);
      Reflexive(hash, equal, node[n].data);
      InsertAt(n);
      return n, true;
    }

    // ---------------------------------------------------------------- removing

    /** Takes the value in slot `position` out of the set; the slot stays allocated. */
    method Extract(position: nat) returns (value: T)
      requires Valid() && 0 < position < next && position < |node| && node[position].active
      modifies `node, `bucket, `count, `chains
      ensures Valid() && value == old(node[position].data) && count == old(count) - 1
      ensures Values(node) == iset v | v in old(Values(node)) && !equal(v, value)
      ensures SameValues(SetActive(old(node), position, false), node)
    {
      hide Good, Loose, Laws, Filed, Values, SameValues;
      ghost var ch := GoodExtracted(hash, equal, load, node, bucket, chains, count, next, capacity, position);
      ghost var m, bucket0 := node, bucket;
      value := node[position].data;
      node := SetActive(node, position, false);
      var b := node[position].temp % |bucket|;
      assert bucket[b] != 0;
      var after, before := node[position].next, node[position].prev;
      if after != 0 {
        assert node[after].active;
        assert node[after].prev == position;
        node := node[after := node[after].(prev := before)];
      }
      if bucket[b] == position {
        assert before == 0;
        bucket := bucket[b := after];
      } else if before != 0 {
        assert node[before].active;
        assert node[before].next == position;
        node := node[before := node[before].(next := after)];
      }
      count := count - 1;
      chains := ch;
      assert node == Extracted(m, position, bucket0[b] == position);
    }

    /** Removes an equal value, if there is one. */
    method Erase(value: T) returns (found: bool)
      requires Valid()
      modifies `node, `bucket, `count, `chains
      ensures Valid() && found == Has(equal, old(Values(node)), value)
      ensures Values(node) == iset v | v in old(Values(node)) && !equal(v, value)
      ensures count == old(count) - (if found then 1 else 0)
    {
      hide Filed, Laws, Distinct, Buckets, Values, Keyed, Sized;
      var position := Find(value);
      if 1 <= position < next && node[position].active {
        EqualSame(hash, equal, Values(node), node[position].data, value);
        var _ := Extract(position);
        found := true;
      } else {
        found := false;
      }
    }

    // ---------------------------------------------------------------- storage

    /** Rebuilds all chains from a scan over the slots, with fresh hash values if asked. */
    method Bucketize(rehash: bool)
      requires Loose(hash, equal, load, node, |bucket|, count, next, capacity) && (rehash || Keyed(hash, node))
          && capacity > 0
      modifies `node, `bucket, `chains
      ensures Valid() && Values(node) == old(Values(node))
    {
      hide Filed, Loose, Good, Values, Keyed, Rebuilt, LinkIn, Below, Actives;
      ghost var m, k := node, next;
      LooseNext(hash, equal, load, node, |bucket|, count, next, capacity);
      RebuildStart(hash, rehash, node, |bucket|);
      bucket := seq(|bucket|, _ => 0);
      chains := seq(|bucket|, _ => []);
      ghost var i0 := 1;
      if count > 0 {
        var c := 0;
        var i := 1;
        while i < capacity
          invariant 1 <= i <= capacity && capacity == |m| == |node| && |bucket| == old(|bucket|) > 0
          invariant Rebuilt(hash, rehash, m, node, bucket, chains, i) && c == |Below(m, i)| < count
          invariant i0 == i
          decreases capacity - i
        {
          if node[i].active {
            RebuildStep(hash, rehash, m, node, bucket, chains, i);
            if rehash {
              node := SetTemp(node, i, hash(node[i].data));
            }
            var b := node[i].temp % |bucket|;
            assert bucket[b] != 0 ==> node[bucket[b]].active && node[bucket[b]].prev == 0;
            node := LinkIn(node, i, bucket[b]);
            chains := chains[b := [i] + chains[b]];
            bucket := bucket[b := i];
            c := c + 1;
            i0 := i + 1;
            if c >= count {
              break;
            }
          } else {
            RebuildSkip(hash, rehash, m, node, bucket, chains, i);
          }
          i := i + 1;
          i0 := i;
        }
      }
      RebuildDone(hash, equal, rehash, load, m, node, bucket, chains, i0, count, next, capacity);
    }

    /** Moves the active slots to the front, which breaks the chains; tells whether it did. */
    method Reorder() returns (changed: bool)
      requires Valid()
      modifies `node, `next
      ensures Loose(hash, equal, load, node, |bucket|, count, next, capacity) && Keyed(hash, node)
      ensures Values(node) == old(Values(node)) && next == count + 1
      ensures changed <==> old(count + 1 < next)
      ensures !changed ==> Valid() && node == old(node)
    {
      hide Filed, Laws, Distinct, Buckets, Values, Keyed, Sized, Loose, Actives;
      LooseNext(hash, equal, load, node, |bucket|, count, next, capacity);
      if count + 1 < next {
        var j: nat := next - 1;
        for i := 1 to count + 1
          invariant Loose(hash, equal, load, node, |bucket|, count, next, capacity) && Keyed(hash, node)
          invariant Values(node) == old(Values(node)) && next == old(next) && |node| == capacity && next <= capacity
          invariant forall x: nat :: 1 <= x < i ==> x in Actives(node)
          invariant forall x :: x in Actives(node) ==> x <= j
          invariant j < next
        {
          LooseNext(hash, equal, load, node, |bucket|, count, next, capacity);
          if !node[i].active {
            j := LastActive(i, j);
            CompactStep(hash, equal, load, node, |bucket|, count, next, capacity, j, i);
            node := node[i := node[i].(data := node[j].data, temp := node[j].temp, active := true)];
            node := node[j := node[j].(active := false)];
            j := j - 1;
          }
        }
        LooseCompact(hash, equal, load, node, |bucket|, count, next, capacity);
        next := count + 1;
        changed := true;
      } else {
        changed := false;
      }
    }

    /** The last active slot not beyond `from`, which lies after the free slot `i`. */
    method LastActive(i: nat, from: nat) returns (j: nat)
      requires 1 <= i <= |Actives(node)| && i < |node| && !node[i].active && from < |node|
      requires forall x :: x in Actives(node) ==> 0 < x <= from
      ensures i < j <= from && node[j].active
      ensures forall x :: x in Actives(node) ==> x <= j
    {
      j := from;
      CrowdedSet(Actives(node), i, j);
      while !node[j].active
        invariant i < j <= from
        invariant forall x :: x in Actives(node) ==> 0 < x <= j
        decreases j
      {
        assert j !in Actives(node);
        j := j - 1;
        CrowdedSet(Actives(node), i, j);
      }
    }

    /** Fills the gaps left by removed values. */
    method Reorganize()
      requires Valid()
      modifies `node, `bucket, `chains, `next
      ensures Valid() && Values(node) == old(Values(node))
      ensures next == if count == 0 then old(next) else count + 1
    {
      hide Filed, Laws, Distinct, Buckets, Values, Keyed;
      if count != 0 {
        var changed := Reorder();
        if changed {
          Bucketize(false);
        }
      }
    }

    /** Computes all hash values anew. */
    method Rehash()
      requires Valid()
      modifies `node, `bucket, `chains
      ensures Valid() && Values(node) == old(Values(node))
    {
      hide Filed, Laws, Distinct, Buckets, Values, Keyed;
      if count != 0 {
        LooseNext(hash, equal, load, node, |bucket|, count, next, capacity);
        Bucketize(true);
      }
    }

    /** Changes the number of slots. */
    method Resize(size: nat) returns (ok: bool)
      requires Valid()
      modifies `node, `bucket, `chains, `next, `capacity
      ensures Valid() && Values(node) == old(Values(node))
      ensures ok <==> count < size <= UINT32_MAX
      ensures ok ==> next == count + 1 && capacity == (if size < 16 then 16 else size)
      ensures !ok ==> next == old(next) && capacity == old(capacity)
    {
      hide Filed, Laws, Distinct, Buckets, Values, Keyed, Resized;
      if size <= count || size > UINT32_MAX {
        return false;
      }
      var slots := if size < 16 then 16 else size;
      var needBucketize := Reorder();
      var same := slots == capacity;
      if !same {
        LooseResized(hash, equal, load, node, |bucket|, count, next, capacity, slots, blank);
        node := Resized(node, slots, blank);
        capacity := slots;
        bucket := seq(Buckets(slots, load), _ => 0);
        needBucketize := true;
      }
      if needBucketize {
        Bucketize(false);
      }
      return true;
    }

    /** Makes room for one more slot; the doubled sizes wrap around at 32 bits. There is room
        afterwards unless all slots are used up and no value is left. */
    method Increase() returns (ok: bool)
      requires Valid()
      modifies `node, `bucket, `chains, `next, `capacity
      ensures Valid() && Values(node) == old(Values(node))
      ensures old(next < capacity || capacity < UINT32_RANGE / 2) ==> (next < capacity <==> !old(Stuck()))
      ensures old(0 < next < capacity) ==> next == old(next) && capacity == old(capacity)
      ensures next == if old(next < capacity) || !ok || old(Stuck()) then old(next) else count + 1
      ensures var doubled := old(capacity) * 2 % UINT32_RANGE;
              var crowded := old(next >= capacity > 0 && count * 2 % UINT32_RANGE > capacity);
              && (ok <==> (crowded ==> count < doubled))
              && capacity == (if old(capacity) == 0 then 16
                              else if !crowded || !ok then old(capacity) else if doubled < 16 then 16 else doubled)
    {
      hide Loose, Filed, Keyed, Values, Actives;
      GoodLoose(hash, equal, load, node, bucket, chains, count, next, capacity);
      if capacity == 0 {
        ok := Resize(16);
        return;
      } else if next >= capacity {
        if count * 2 % UINT32_RANGE <= capacity {
          Reorganize();
        } else {
          ok := Resize(capacity * 2 % UINT32_RANGE);
          return;
        }
      }
      return true;
    }

    /** Forgets all values. All slots become free again, except that an empty set is left as it is. */
    method Clear()
      requires Valid()
      modifies `node, `bucket, `chains, `next, `count
      ensures Valid() && count == 0 && Values(node) == iset{}
      ensures next == if old(count) > 0 then 1 else old(next)
      ensures Stuck() <==> old(Stuck())
    {
      hide Filed, Laws, Distinct, Buckets, Keyed;
      LooseNext(hash, equal, load, node, |bucket|, count, next, capacity);
      ghost var m := node;
      if count > 0 {
        for i := 0 to next
          invariant |node| == |m| && next == old(next) && next <= |node| && count == old(count)
              && |bucket| == old(|bucket|)
          invariant forall x: nat :: x < |node| && node[x].active ==> i <= x && m[x].active
        {
          if node[i].active {
            node := SetActive(node, i, false);
          }
        }
        next, count := 1, 0;
      }
      bucket := seq(|bucket|, _ => 0);
      chains := seq(|bucket|, _ => []);
      EmptyGood(hash, equal, node, bucket, chains);
    }

    constructor (hash: T -> nat, equal: (T, T) -> bool, load: nat, blank: T, size: nat)
      requires Laws(hash, equal) && 16 * load >= 100
      ensures Valid() && count == 0 && Values(node) == iset{}
      ensures this.hash == hash && this.equal == equal && this.load == load
      ensures size == 0 ==> capacity == 0 && next == 1
      ensures 0 < size < UINT32_MAX ==> next == 1 && capacity == if size < 15 then 16 else size + 1
    {
      this.hash, this.equal, this.load, this.blank := hash, equal, load, blank;
      capacity, next, count, node, bucket, chains := 0, 1, 0, [], [], [];
      new;
      EmptyGood(hash, equal, node, bucket, chains);
      if size > 0 {
        var _ := Resize(size + 1);
      }
    }
  }

  function Identity(x: int): nat { if x < 0 then 0 else x }

  predicate Same(x: int, y: int) { x == y }

  lemma HasSame(s: iset<int>, v: int)
    ensures Has(Same, s, v) <==> v in s
  {
    if v in s { assert Same(v, v); }
    if Has(Same, s, v) {
      var w :| w in s && Same(w, v);
    }
  }

  predicate Between(v: int, a: int, b: int) { a <= v < b }

  ghost function Interval(a: int, b: int): iset<int> { iset v | Between(v, a, b) }

  lemma IntervalAdd(s: iset<int>, i: int)
    requires s == Interval(0, i) && i >= 0
    ensures !Has(Same, s, i) && s + iset{i} == Interval(0, i + 1)
  {
    HasSame(s, i);
    hide Has;
    assert forall v :: Between(v, 0, i + 1) <==> Between(v, 0, i) || v == i;
  }

  lemma IntervalTake(s: iset<int>, i: int, b: int)
    requires s == Interval(i, b) && i < b
    ensures Has(Same, s, i) && (iset v | v in s && !Same(v, i)) == Interval(i + 1, b)
  {
    assert Between(i, i, b);
    HasSame(s, i);
    hide Has;
    assert forall v :: Between(v, i + 1, b) <==> Between(v, i, b) && v != i;
  }

  /** Fifteen values fill the sixteen slots. */
  method Fill() returns (s: HashSet<int>)
    ensures s.Valid() && s.next == 16 && s.count == 15 && s.capacity == 16 && s.equal == Same && fresh(s)
    ensures Values(s.node) == Interval(0, 15)
  {
    hide Good, Values, Has, Laws;
    SameLaws();
    s := new HashSet<int>(Identity, Same, 150, 0, 15);
    var i := 0;
    while i < 15
      invariant s.Valid() && 0 <= i <= 15 && s.next == i + 1 && s.count == i && s.capacity == 16 && s.equal == Same
      invariant Values(s.node) == Interval(0, i)
      invariant fresh(s)
    {
      IntervalAdd(Values(s.node), i);
      var _, ok := s.Insert(i);
      i := i + 1;
    }
  }

  lemma SameLaws()
    ensures Laws(Identity, Same)
  {
  }

  /** A run of insertions and removals after which the set cannot make room for another value. */
  method FillAndDrain() returns (s: HashSet<int>)
    ensures s.Valid() && s.Stuck()
  {
    hide Good, Values, Has;
    s := Fill();
    var i := 0;
    while i < 15
      invariant s.Valid() && 0 <= i <= 15 && s.next == 16 && s.count == 15 - i && s.capacity == 16 && s.equal == Same
      invariant Values(s.node) == Interval(i, 15)
      invariant fresh(s)
    {
      IntervalTake(Values(s.node), i, 15);
      var found := s.Erase(i);
      i := i + 1;
    }
  }

  /** A full set that is cleared takes its next value into the first slot. */
  method FillClearInsert() returns (s: HashSet<int>, i: nat, ok: bool)
    ensures s.Valid() && i == 1 && ok && s.next == 2 && s.count == 1 && s.capacity == 16 && !s.Stuck()
    ensures Values(s.node) == iset{0}
  {
    hide Good, Values, Has;
    s := Fill();
    s.Clear();
    HasSame(Values(s.node), 0);
    i, ok := s.Insert(0);
  }
}
