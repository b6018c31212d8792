/** Lists of slot numbers: ends, neighbours, distinctness and counting. */
module SlotLists {

  predicate NoDup(s: seq<nat>) { forall i, j :: 0 <= i < j < |s| ==> s[i] != s[j] }

  predicate Disjoint(s: seq<nat>, t: seq<nat>) { forall x :: x in s ==> x !in t }

  predicate Subset(s: seq<nat>, t: seq<nat>) { forall x :: x in s ==> x in t }

  lemma NoDupParts(s: seq<nat>, t: seq<nat>)
    ensures NoDup(s + t) <==> NoDup(s) && NoDup(t) && Disjoint(s, t)
  {
    var u := s + t;
    if NoDup(u) {
      forall i, j | 0 <= i < j < |s|
        ensures s[i] != s[j]
      {
        assert u[i] != u[j];
      }
      forall i, j | 0 <= i < j < |t|
        ensures t[i] != t[j]
      {
        assert u[|s| + i] != u[|s| + j];
      }
      forall x | x in s
        ensures x !in t
      {
        var i :| 0 <= i < |s| && s[i] == x;
        forall j | 0 <= j < |t|
          ensures t[j] != x
        {
          assert u[i] != u[|s| + j];
        }
      }
    }
    if NoDup(s) && NoDup(t) && Disjoint(s, t) {
      forall i, j | 0 <= i < j < |u|
        ensures u[i] != u[j]
      {
        if i < |s| <= j { assert s[i] in s && t[j - |s|] in t; }
      }
    }
  }

  lemma NoDupWithout(s: seq<nat>, s': seq<nat>, e: nat)
    requires NoDup(s + [e] + s')
    ensures NoDup(s + s') && e !in s + s'
  {
    NoDupParts(s + [e], s');
    NoDupParts(s, [e]);
    NoDupParts(s, s');
    assert e in s + [e];
  }

  function LastOr0(s: seq<nat>): nat { if s == [] then 0 else s[|s| - 1] }

  function FirstOr0(s: seq<nat>): nat { if s == [] then 0 else s[0] }

  lemma EndsOr0(s: seq<nat>)
    ensures (LastOr0(s) == 0 && FirstOr0(s) == 0 && forall x :: x !in s) || (LastOr0(s) in s && FirstOr0(s) in s)
  {
    if s != [] { assert s[0] in s && s[|s| - 1] in s; }
  }

  /** The slot at position `k`, or 0 beyond either end. */
  function SlotAt(s: seq<nat>, k: int): nat { if 0 <= k < |s| then s[k] else 0 }

  lemma EndsOfSum(a: seq<nat>, b: seq<nat>)
    ensures FirstOr0(a + b) == if a != [] then FirstOr0(a) else FirstOr0(b)
    ensures LastOr0(a + b) == if b != [] then LastOr0(b) else LastOr0(a)
  {
    assert a == [] ==> a + b == b;
    assert b == [] ==> a + b == a;
  }

  /** Slot `r` follows slot `i` in the order, or is 0 when `i` is last. */
  ghost predicate Follows(s: seq<nat>, i: nat, r: nat) {
    exists k :: 0 <= k < |s| && s[k] == i && r == SlotAt(s, k + 1)
  }

  /** Slot `r` precedes slot `i` in the order, or is 0 when `i` is first. */
  ghost predicate Precedes(s: seq<nat>, i: nat, r: nat) {
    exists k :: 0 <= k < |s| && s[k] == i && r == SlotAt(s, k - 1)
  }

  lemma SplitNeighbours(a: seq<nat>, i: nat, b: seq<nat>)
    ensures Follows(a + [i] + b, i, FirstOr0(b)) && Precedes(a + [i] + b, i, LastOr0(a))
  {
    var s := a + [i] + b;
    assert s[|a|] == i && SlotAt(s, |a| + 1) == FirstOr0(b) && SlotAt(s, |a| - 1) == LastOr0(a);
  }

  lemma NotInParts(a: seq<nat>, b: seq<nat>, x: nat)
    requires x !in a + b
    ensures x !in a && x !in b
  {
  }

  /** A list of distinct slots splits at a slot in only one way. */
  lemma SplitUnique(a: seq<nat>, b: seq<nat>, a': seq<nat>, b': seq<nat>, e: nat)
    requires NoDup(a + [e] + b) && a + [e] + b == a' + [e] + b'
    ensures a == a' && b == b'
  {
    var s := a + [e] + b;
    assert s[|a|] == e;
    assert s[|a'|] == (a' + [e] + b')[|a'|] == e;
    assert |a| == |a'|;
    assert a == s[..|a|] == (a' + [e] + b')[..|a'|] == a';
    assert b == s[|a| + 1..] == (a' + [e] + b')[|a'| + 1..] == b';
  }

  // ------------------------------------------------------------------ counting slots

  /** Distinct members of a list are no more than the list is long. */
  lemma {:induction false} SubsetSize(r: seq<nat>, s: seq<nat>)
    requires NoDup(r) && Subset(r, s)
    ensures |r| <= |s|
    decreases r
  {
    if r != [] {
      assert r[0] in r;
      var k :| 0 <= k < |s| && s[k] == r[0];
      var rest := s[..k] + s[k + 1..];
      forall x | x in r[1..]
        ensures x in rest
      {
        var j :| 0 <= j < |r| - 1 && r[1..][j] == x;
        assert r[j + 1] == x && r[0] != r[j + 1] && x in r;
        var n :| 0 <= n < |s| && s[n] == x;
        assert if n < k then rest[n] == x else rest[n - 1] == x;
      }
      assert NoDup(r[1..]) by {
        forall i, j | 0 <= i < j < |r| - 1
          ensures r[1..][i] != r[1..][j]
        {
          assert r[i + 1] != r[j + 1];
        }
      }
      SubsetSize(r[1..], rest);
    }
  }

  function UpTo(n: nat): seq<nat> { seq(n, k => k + 1) }

  lemma UpToSlots(n: nat)
    ensures |UpTo(n)| == n && NoDup(UpTo(n)) && forall x :: x in UpTo(n) <==> 1 <= x <= n
  {
    forall x | 1 <= x <= n
      ensures x in UpTo(n)
    {
      assert UpTo(n)[x - 1] == x;
    }
  }

  /** While a slot up to the count is free, an active slot lies beyond it. */
  lemma Crowded(s: seq<nat>, i: nat, j: nat)
    requires NoDup(s) && 1 <= i <= |s| && i !in s && forall x :: x in s ==> 0 < x <= j
    ensures j > i
  {
    if j <= i {
      UpToSlots(i - 1);
      SubsetSize(s, UpTo(i - 1));
    }
  }

  /** Once all slots up to the count are taken, none beyond is. */
  lemma Compact(s: seq<nat>)
    requires NoDup(s) && forall x: nat :: 1 <= x <= |s| ==> x in s
    ensures forall x: nat :: x in s && x > 0 ==> x <= |s|
  {
    forall x: nat | x in s && x > 0
      ensures x <= |s|
    {
      if x > |s| {
        UpToSlots(|s|);
        NoDupParts(UpTo(|s|), [x]);
        SubsetSize(UpTo(|s|) + [x], s);
      }
    }
  }

  lemma InMiddle(a: seq<nat>, e: nat, b: seq<nat>)
    ensures e in a + [e] + b
  {
  }

  lemma NoDupEmpty()
    ensures NoDup([])
  {
  }

  lemma NoDupOne(i: nat)
    ensures NoDup([i]) && forall x :: x in [i] <==> x == i
  {
  }

  /** With distinct slots, what follows a position is what follows its slot. */
  lemma FollowsAt(s: seq<nat>, i: nat, k: nat, r: nat)
    requires NoDup(s) && Follows(s, i, r) && k < |s| && s[k] == i
    ensures r == SlotAt(s, k + 1)
  {
    var j :| 0 <= j < |s| && s[j] == i && r == SlotAt(s, j + 1);
    assert j == k;
  }

  // ------------------------------------------------------------------ sets of slots

  ghost function Range(n: nat): (s: set<nat>)
    ensures |s| == n && forall x :: x in s <==> 1 <= x <= n
  {
    if n == 0 then {} else Range(n - 1) + {n}
  }

  lemma SubsetCard(a: set<nat>, b: set<nat>)
    requires a <= b
    ensures |a| <= |b| && (|a| == |b| ==> a == b)
  {
    assert b == a + (b - a);
  }

  /** The same two counting arguments for sets. */
  lemma CrowdedSet(s: set<nat>, i: nat, j: nat)
    requires 1 <= i <= |s| && i !in s && forall x :: x in s ==> 0 < x <= j
    ensures j > i
  {
    if j <= i {
      SubsetCard(s, Range(i - 1));
    }
  }

  lemma CompactSet(s: set<nat>)
    requires forall x: nat :: 1 <= x <= |s| ==> x in s
    ensures s == Range(|s|)
  {
    SubsetCard(Range(|s|), s);
  }
}
