/** Substring search with a failure table, and what the table as built can and cannot find. */
module StringSearch {

  // ------------------------------------------------------------------ occurrences and borders

  /** `p` occurs in `h` at position `s`. */
  predicate Occurs(h: string, p: string, s: nat) { s + |p| <= |h| && h[s..s + |p|] == p }

  /** `r` is the first occurrence from `from` on, or -1 when there is none. */
  ghost predicate IsFirst(h: string, p: string, from: nat, r: int) {
    if r < 0 then r == -1 && forall s: nat :: s >= from ==> !Occurs(h, p, s)
    else r >= from && Occurs(h, p, r) && forall s: nat :: from <= s < r ==> !Occurs(h, p, s)
  }

  /** The first `b` characters of `p` are also the last `b` of its first `k`. */
  predicate Border(p: string, k: nat, b: nat) { b < k <= |p| && p[..b] == p[k - b..k] }

  /** A table with smaller entries than places, so that following it ends. */
  ghost predicate Shrinking(p: string, n: seq<nat>) { |n| == |p| + 1 && forall k :: 1 <= k <= |p| ==> n[k] < k }

  /** A table of proper borders: whatever it names for a prefix is a border of it. */
  ghost predicate ProperTable(p: string, n: seq<nat>) {
    Shrinking(p, n) && forall k :: 1 <= k <= |p| ==> Border(p, k, n[k])
  }

  /** The table names the longest border of every prefix. */
  ghost predicate LongestTable(p: string, n: seq<nat>) {
    ProperTable(p, n) && forall k, b :: 1 <= k <= |p| && Border(p, k, b) ==> b <= n[k]
  }

  // ------------------------------------------------------------------ the table as built

  /** The table that `prefix` builds: only the first character is ever compared. */
  function BuiltTable(p: string): (n: seq<nat>)
    ensures |n| == |p| + 1
  {
    seq(|p| + 1, k requires 0 <= k <= |p| => if k >= 2 && p[0] == p[k - 1] then 1 else 0)
  }

  lemma BuiltProper(p: string)
    ensures ProperTable(p, BuiltTable(p))
  {
    forall k | 1 <= k <= |p|
      ensures Border(p, k, BuiltTable(p)[k])
    {
      if BuiltTable(p)[k] == 1 {
        assert p[..1] == [p[0]] && p[k - 1..k] == [p[k - 1]];
      } else {
        assert p[..0] == [] && p[k - 0..k] == [];
      }
    }
  }

  /** The inner loop of `prefix`: shorter and shorter borders until one can be extended. */
  method Fallback(needle: string, n: seq<nat>, i: nat) returns (j: nat)
    requires Shrinking(needle, n) && 0 < i < |needle|
    ensures j <= n[i + 1] && (j == 0 || needle[j] == needle[i])
  {
    j := n[i + 1];
    while j > 0 && needle[j] != needle[i]
      invariant j <= n[i + 1]
      decreases j
    {
      j := n[j];
    }
  }

  /** Builds the failure table. The inner loop starts from an entry just zeroed. */
  method Prefix(needle: string) returns (n: seq<nat>)
    requires |needle| > 0
    ensures n == BuiltTable(needle) && ProperTable(needle, n)
  {
    n := seq(|needle| + 1, _ => 0);
    var i := 1;
    while i < |needle|
      invariant 1 <= i <= |needle| && Shrinking(needle, n)
      invariant forall k :: 0 <= k <= i ==> n[k] == BuiltTable(needle)[k]
      invariant forall k :: i < k <= |needle| ==> n[k] == 0
    {
      var j := Fallback(needle, n, i);
      if j > 0 || needle[j] == needle[i] {
        n := n[i + 1 := j + 1];
      }
      i := i + 1;
    }
    BuiltProper(needle);
  }

  // ------------------------------------------------------------------ the search

  /** The search loop as a function: `i` is the place in the haystack, `j` how much of the needle
      has matched before it. */
  ghost function Search(h: string, p: string, n: seq<nat>, i: nat, j: nat): (r: int)
    requires j < |p| && j <= i <= |h| && Shrinking(p, n)
    decreases 2 * (|h| - i) + j
  {
    if i >= |h| then -1
    else if h[i] == p[j] then
      if j + 1 == |p| then i - j else Search(h, p, n, i + 1, j + 1)
    else if j > 0 then Search(h, p, n, i, n[j])
    else Search(h, p, n, i + 1, j)
  }

  /** The `find` loop. A hit moves `pos` to it. */
  method Find(h: string, p: string, n: seq<nat>, pos: nat) returns (r: int)
    requires |p| > 0 && ProperTable(p, n) && pos <= |h|
    ensures r == if |h| - pos >= |p| then Search(h, p, n, pos, 0) else -1
  {
    if |h| - pos >= |p| {
      var i: nat, j: nat := pos, 0;
      while i < |h|
        invariant pos <= i <= |h| && j < |p| && pos + j <= i
        invariant Search(h, p, n, i, j) == Search(h, p, n, pos, 0)
        decreases 2 * (|h| - i) + j
      {
        if h[i] == p[j] {
          j := j + 1;
          if j == |p| {
            return i - j + 1;
          }
          i := i + 1;
        } else if j > 0 {
          assert Border(p, j, n[j]);
          j := n[j];
        } else {
          i := i + 1;
        }
      }
    }
    r := -1;
  }

  /** What the loop knows: the matched characters. */
  predicate Matched(h: string, p: string, i: nat, j: nat) { j <= i <= |h| && j <= |p| && h[i - j..i] == p[..j] }

  /** Following the table keeps a match. */
  lemma MatchedBack(h: string, p: string, i: nat, j: nat, b: nat)
    requires Matched(h, p, i, j) && Border(p, j, b)
    ensures Matched(h, p, i, b)
  {
    assert h[i - b..i] == h[i - j..i][j - b..];
    assert p[..j][j - b..] == p[j - b..j];
  }

  lemma MatchedOn(h: string, p: string, i: nat, j: nat)
    requires Matched(h, p, i, j) && i < |h| && j < |p| && h[i] == p[j]
    ensures Matched(h, p, i + 1, j + 1)
  {
    assert h[i - j..i + 1] == h[i - j..i] + [h[i]];
    assert p[..j + 1] == p[..j] + [p[j]];
  }

  /** With any table of proper borders, a hit is an occurrence at or after the start. */
  lemma {:induction false} SearchSound(h: string, p: string, n: seq<nat>, i: nat, j: nat)
    requires j < |p| && ProperTable(p, n) && Matched(h, p, i, j)
    ensures Shrinking(p, n)
    ensures var r := Search(h, p, n, i, j); r != -1 ==> r >= i - j && Occurs(h, p, r)
    decreases 2 * (|h| - i) + j
  {
    SmallEntries(p, n);
    hide ProperTable, Border, Matched;
    if i < |h| {
      if h[i] == p[j] {
        MatchedOn(h, p, i, j);
        if j + 1 == |p| {
          WholeMatch(h, p, i + 1);
        } else {
          SearchSound(h, p, n, i + 1, j + 1);
        }
      } else if j > 0 {
        MatchedBack(h, p, i, j, n[j]);
        SearchSound(h, p, n, i, n[j]);
      } else {
        SearchSound(h, p, n, i + 1, j);
      }
    }
  }

  lemma SmallEntries(p: string, n: seq<nat>)
    requires ProperTable(p, n)
    ensures Shrinking(p, n)
  {
  }

  // ------------------------------------------------------------------ completeness

  /** No occurrence begins in the range. */
  ghost predicate NoneIn(h: string, p: string, from: nat, to: int) {
    forall s: nat :: from <= s < to ==> !Occurs(h, p, s)
  }

  /** On a mismatch after `k` characters, falling back to the table loses nothing: every other
      border would meet the same mismatch. */
  ghost predicate SafeAt(p: string, n: seq<nat>, k: nat)
    requires |n| == |p| + 1 && k < |p|
  {
    forall b :: n[k] < b && Border(p, k, b) ==> p[b] == p[k]
  }

  ghost predicate SafeTable(p: string, n: seq<nat>)
    requires |n| == |p| + 1
  {
    forall k :: 1 <= k < |p| ==> SafeAt(p, n, k)
  }

  lemma OccursAt(h: string, p: string, s: nat, k: nat)
    requires k < |p|
    ensures Occurs(h, p, s) ==> s + k < |h| && h[s + k] == p[k]
  {
    if Occurs(h, p, s) { assert h[s..s + |p|][k] == h[s + k]; }
  }

  /** A match of the first `j` characters and an occurrence that begins inside it make a border. */
  lemma Overlap(h: string, p: string, i: nat, j: nat, s: nat)
    requires Matched(h, p, i, j) && i - j < s < i && i < |h| && j < |p|
    ensures Occurs(h, p, s) ==> Border(p, j, i - s)
  {
    var b := i - s;
    assert p[j - b..j] == p[..j][j - b..] == h[i - j..i][j - b..] == h[s..i];
    if Occurs(h, p, s) {
      assert p[..b] == h[s..s + |p|][..b] == h[s..i];
    }
  }

  lemma FallBack(h: string, p: string, n: seq<nat>, pos: nat, i: nat, j: nat)
    requires ProperTable(p, n) && SafeTable(p, n) && Matched(h, p, i, j) && 1 <= j < |p| && i < |h| && h[i] != p[j]
    requires NoneIn(h, p, pos, i - j) && pos <= i - j
    ensures n[j] < j && NoneIn(h, p, pos, i - n[j])
  {
    assert SafeAt(p, n, j);
    forall s: nat | pos <= s < i - n[j]
      ensures !Occurs(h, p, s)
    {
      if s >= i - j {
        OccursAt(h, p, s, i - s);
        if s > i - j {
          Overlap(h, p, i, j, s);
        }
      }
    }
  }

  /** With a safe table of proper borders the result is the first occurrence, and -1 means none. */
  lemma {:induction false} SearchComplete(h: string, p: string, n: seq<nat>, pos: nat, i: nat, j: nat)
    requires j < |p| && ProperTable(p, n) && SafeTable(p, n) && Matched(h, p, i, j)
    requires pos <= i - j && NoneIn(h, p, pos, i - j)
    ensures Shrinking(p, n)
    ensures IsFirst(h, p, pos, Search(h, p, n, i, j))
    decreases 2 * (|h| - i) + j
  {
    SmallEntries(p, n);
    hide SafeTable, ProperTable, Matched, NoneIn, IsFirst, Occurs, Border;
    if i >= |h| {
    } else if h[i] == p[j] {
      MatchedOn(h, p, i, j);
      if j + 1 == |p| {
        FoundFirst(h, p, pos, i + 1);
      } else {
        SearchComplete(h, p, n, pos, i + 1, j + 1);
      }
    } else if j > 0 {
      FallBack(h, p, n, pos, i, j);
      MatchedBack(h, p, i, j, n[j]);
      SearchComplete(h, p, n, pos, i, n[j]);
    } else {
      OtherFirst(h, p, pos, i);
      SearchComplete(h, p, n, pos, i + 1, j);
    }
  }

  lemma WholeMatch(h: string, p: string, i: nat)
    requires Matched(h, p, i, |p|)
    ensures Occurs(h, p, i - |p|)
  {
  }

  lemma FoundFirst(h: string, p: string, pos: nat, i: nat)
    requires Matched(h, p, i, |p|) && pos <= i - |p| && NoneIn(h, p, pos, i - |p|)
    ensures IsFirst(h, p, pos, i - |p|)
  {
    WholeMatch(h, p, i);
  }

  lemma OtherFirst(h: string, p: string, pos: nat, i: nat)
    requires i < |h| && |p| > 0 && h[i] != p[0] && NoneIn(h, p, pos, i)
    ensures NoneIn(h, p, pos, i + 1)
  {
    OccursAt(h, p, i, 0);
  }

  /** The longest-border table is safe: there is no longer border to lose. */
  lemma LongestSafe(p: string, n: seq<nat>)
    requires LongestTable(p, n)
    ensures SafeTable(p, n)
  {
  }

  // ------------------------------------------------------------------ exactly when it is right

  lemma {:induction false} SearchMatches(h: string, p: string, n: seq<nat>, k: nat, i: nat)
    requires Shrinking(p, n) && i <= k < |p| && k <= |h| && h[..k] == p[..k]
    ensures Search(h, p, n, i, i) == Search(h, p, n, k, k)
    decreases k - i
  {
    if i < k {
      assert h[i] == h[..k][i] == p[..k][i] == p[i];
      SearchMatches(h, p, n, k, i + 1);
    }
  }

  /** A haystack in which an unsafe table makes the search miss an occurrence. */
  function Trap(p: string, k: nat, b: nat): string
    requires b <= k <= |p|
  {
    p[..k] + p[b..]
  }

  lemma TrapMisses(p: string, n: seq<nat>, k: nat, b: nat)
    requires ProperTable(p, n) && 1 <= k < |p| && n[k] < b && Border(p, k, b) && p[b] != p[k]
    ensures var h := Trap(p, k, b);
            |h| > |p| && Occurs(h, p, k - b) && Search(h, p, n, 0, 0) == -1
  {
    var h := Trap(p, k, b);
    assert h[k - b..k - b + |p|] == p[k - b..k] + p[b..];
    assert p[..b] + p[b..] == p;
    assert h[..k] == p[..k] && h[k] == p[b];
    SearchMatches(h, p, n, k, 0);
    assert Border(p, k, n[k]);
    assert h[k - k..k] == p[..k];
    MatchedBack(h, p, k, k, n[k]);
    SearchSound(h, p, n, k, n[k]);
    assert Search(h, p, n, k, k) == Search(h, p, n, k, n[k]);
    assert Occurs(h, p, k - b) && |h| == k - b + |p|;
  }

  /** The search is right for every haystack and every start exactly when its table is safe. */
  lemma SearchExact(p: string, n: seq<nat>)
    requires |p| > 0 && ProperTable(p, n)
    ensures SafeTable(p, n) <==>
        forall h: string, pos: nat :: pos <= |h| ==> IsFirst(h, p, pos, Search(h, p, n, pos, 0))
  {
    if SafeTable(p, n) {
      forall h: string, pos: nat | pos <= |h|
        ensures IsFirst(h, p, pos, Search(h, p, n, pos, 0))
      {
        SearchComplete(h, p, n, pos, pos, 0);
      }
    } else {
      var k :| 1 <= k < |p| && !SafeAt(p, n, k);
      var b :| n[k] < b && Border(p, k, b) && p[b] != p[k];
      TrapMisses(p, n, k, b);
      var h := Trap(p, k, b);
      assert !IsFirst(h, p, 0, Search(h, p, n, 0, 0));
    }
  }

  /** What a caller can check beforehand: two prefixes of the needle that end in the same two or
      more characters go on with the same character. */
  ghost predicate Findable(p: string) {
    forall k: nat, b: nat :: 2 <= b && k < |p| && Border(p, k, b) ==> p[b] == p[k]
  }

  /** The table as built is safe exactly for such needles. */
  lemma BuiltSafe(p: string)
    ensures SafeTable(p, BuiltTable(p)) <==> Findable(p)
  {
    var n := BuiltTable(p);
    if Findable(p) {
      forall k | 1 <= k < |p|
        ensures SafeAt(p, n, k)
      {
        forall b | n[k] < b && Border(p, k, b)
          ensures p[b] == p[k]
        {
          OneBorder(p, k);
        }
      }
    }
    if SafeTable(p, n) {
      forall k: nat, b: nat | 2 <= b && k < |p| && Border(p, k, b)
        ensures p[b] == p[k]
      {
        assert SafeAt(p, n, k);
      }
    }
  }

  lemma OneBorder(p: string, k: nat)
    requires 1 <= k <= |p|
    ensures Border(p, k, 1) ==> BuiltTable(p)[k] == 1
  {
    if Border(p, k, 1) {
      assert p[..1][0] == p[k - 1..k][0];
    }
  }

  /** The needle of the smallest well-known miss: it is there, and the search does not find it. */
  lemma MissedOccurrence()
    ensures Occurs("abababc", "ababc", 2) && !Findable("ababc")
    ensures Shrinking("ababc", BuiltTable("ababc")) && Search("abababc", "ababc", BuiltTable("ababc"), 0, 0) == -1
  {
    var h, p, n := "abababc", "ababc", BuiltTable("ababc");
    BuiltProper(p);
    assert p[..2] == p[2..4];
    assert Border(p, 4, 2) && p[2] != p[4];
    assert h[..4] == p[..4];
    SearchMatches(h, p, n, 4, 0);
    assert n[4] == 0 && n[2] == 0;
    assert Search(h, p, n, 4, 4) == Search(h, p, n, 4, 0) == Search(h, p, n, 5, 1) == Search(h, p, n, 6, 2);
    assert Search(h, p, n, 6, 2) == Search(h, p, n, 6, 0) == Search(h, p, n, 7, 0) == -1;
  }

  // ------------------------------------------------------------------ the public functions

  /** What the search with the built table gives. */
  lemma FindRight(h: string, p: string, n: seq<nat>, pos: nat)
    requires |p| > 0 && n == BuiltTable(p) && pos <= |h|
    ensures ProperTable(p, n)
    ensures var r := if |h| - pos >= |p| then Search(h, p, n, pos, 0) else -1;
            && (r >= 0 ==> r >= pos && Occurs(h, p, r)) && r >= -1
            && (Findable(p) ==> IsFirst(h, p, pos, r))
  {
    BuiltProper(p);
    BuiltSafe(p);
    SearchSound(h, p, n, pos, 0);
    if Findable(p) {
      SearchComplete(h, p, n, pos, pos, 0);
    }
  }

  /** The next hit from `pos` on, or -1. */
  ghost function Hit(h: string, p: string, pos: nat): (r: int)
    requires |p| > 0 && pos <= |h|
    ensures r >= -1 && (r >= 0 ==> r >= pos && Occurs(h, p, r)) && (Findable(p) ==> IsFirst(h, p, pos, r))
  {
    FindRight(h, p, BuiltTable(p), pos);
    if |h| - pos >= |p| then Search(h, p, BuiltTable(p), pos, 0) else -1
  }

  /** What `find` answers for whole strings. */
  ghost function FirstHit(h: string, p: string): int {
    if p == [] || h == p then 0 else if |h| > |p| then Hit(h, p, 0) else -1
  }

  /** The search for a whole string. */
  method FindString(haystack: string, needle: string) returns (r: int)
    ensures r == FirstHit(haystack, needle)
    ensures r >= -1 && (r >= 0 ==> Occurs(haystack, needle, r))
    ensures Findable(needle) ==> IsFirst(haystack, needle, 0, r)
    ensures needle == [] ==> r == 0
  {
    if |needle| == 0 {
      return 0;
    }
    if |haystack| == |needle| && haystack == needle {
      return 0;
    } else if |haystack| > |needle| {
      var n := Prefix(needle);
      FindRight(haystack, needle, n, 0);
      r := Find(haystack, needle, n, 0);
    } else {
      return -1;
    }
  }

  /** For a needle that is not findable there is a haystack in which the search sees nothing
      although the needle occurs. */
  lemma Unseen(p: string) returns (h: string, s: nat)
    requires !Findable(p)
    ensures |h| > |p| > 0 && Occurs(h, p, s) && Hit(h, p, 0) == -1
  {
    var n := BuiltTable(p);
    BuiltSafe(p);
    BuiltProper(p);
    var k :| 1 <= k < |p| && !SafeAt(p, n, k);
    var b :| n[k] < b && Border(p, k, b) && p[b] != p[k];
    TrapMisses(p, n, k, b);
    h, s := Trap(p, k, b), k - b;
  }

  /** `find` gives the first occurrence in every haystack exactly for findable needles. */
  lemma FirstExact(p: string)
    ensures Findable(p) <==> forall h: string :: IsFirst(h, p, 0, FirstHit(h, p))
  {
    if Findable(p) {
      forall h: string
        ensures IsFirst(h, p, 0, FirstHit(h, p))
      {
        assert p == [] || h == p ==> Occurs(h, p, 0);
      }
    } else {
      var h, s := Unseen(p);
      assert !IsFirst(h, p, 0, FirstHit(h, p));
    }
  }

  /** `r` is the last occurrence, or -1 when there is none. */
  ghost predicate IsLast(h: string, p: string, r: int) {
    && (if r < 0 then r == -1 else Occurs(h, p, r))
    && forall s: nat :: s > r ==> !Occurs(h, p, s)
  }

  /** The last of the hits from `pos` on, each sought right behind the start of the one before;
      `last` when there is none. */
  ghost function LastFrom(h: string, p: string, pos: nat, last: int): int
    requires |p| > 0 && pos <= |h|
    decreases |h| - pos
  {
    var t := Hit(h, p, pos);
    if t < 0 then last else LastFrom(h, p, t + 1, t)
  }

  /** What `find_last` answers. */
  ghost function LastHit(h: string, p: string): int {
    if p == [] || h == p then 0 else if |h| > |p| then LastFrom(h, p, 0, -1) else -1
  }

  /** The last occurrence. */
  method FindLast(haystack: string, needle: string) returns (last: int)
    ensures last == LastHit(haystack, needle)
    ensures last >= 0 ==> Occurs(haystack, needle, last)
    ensures Findable(needle) && needle != [] ==> IsLast(haystack, needle, last)
    ensures needle == [] ==> last == 0
  {
    if |needle| == 0 {
      return 0;
    }
    if |haystack| == |needle| && haystack == needle {
      return 0;
    } else if |haystack| > |needle| {
      var n := Prefix(needle);
      var pos := 0;
      last := -1;
      FindRight(haystack, needle, n, pos);
      LastRight(haystack, needle, pos, last);
      var tmp := Find(haystack, needle, n, pos);
      while tmp >= 0
        invariant pos <= |haystack| && tmp == Hit(haystack, needle, pos)
        invariant LastFrom(haystack, needle, pos, last) == LastFrom(haystack, needle, 0, -1)
        decreases |haystack| - pos
      {
        last := tmp;
        pos := tmp + 1;
        FindRight(haystack, needle, n, pos);
        tmp := Find(haystack, needle, n, pos);
      }
    } else {
      return -1;
    }
  }

  lemma {:induction false} LastRight(h: string, p: string, pos: nat, last: int)
    requires |p| > 0 && pos <= |h| && -1 <= last < pos && (last >= 0 ==> Occurs(h, p, last))
    ensures var r := LastFrom(h, p, pos, last);
            && r >= -1 && (r >= 0 ==> Occurs(h, p, r))
            && (Findable(p) && (forall s: nat :: last < s < pos ==> !Occurs(h, p, s)) ==> IsLast(h, p, r))
    decreases |h| - pos
  {
    var t := Hit(h, p, pos);
    if t >= 0 {
      LastRight(h, p, t + 1, t);
    }
  }

  /** `find_last` gives the last occurrence in every haystack exactly for findable needles. */
  lemma LastExact(p: string)
    requires p != []
    ensures Findable(p) <==> forall h: string :: IsLast(h, p, LastHit(h, p))
  {
    if Findable(p) {
      forall h: string
        ensures IsLast(h, p, LastHit(h, p))
      {
        if |h| > |p| { LastRight(h, p, 0, -1); }
      }
    } else {
      var h, s := Unseen(p);
      assert LastHit(h, p) == -1 && !IsLast(h, p, LastHit(h, p));
    }
  }

  /** The positions found so far: occurrences, one behind the other. */
  ghost predicate Parts(h: string, d: string, parts: seq<nat>) {
    && (forall k :: 0 <= k < |parts| ==> Occurs(h, d, parts[k]))
    && (forall k :: 0 < k < |parts| ==> parts[k - 1] + |d| <= parts[k])
  }

  /** Where the search for the next part begins. */
  function After(d: string, parts: seq<nat>): nat { if parts == [] then 0 else parts[|parts| - 1] + |d| }

  /** Every part is the first occurrence behind the one before it. */
  ghost predicate Greedy(h: string, d: string, parts: seq<nat>) {
    forall k :: 0 <= k < |parts| ==> IsFirst(h, d, After(d, parts[..k]), parts[k])
  }

  /** The hits from `pos` on, each sought behind the end of the one before, up to `max` of them. */
  ghost function SplitFrom(h: string, d: string, pos: nat, max: nat): seq<nat>
    requires |d| > 0 && pos <= |h|
    decreases max
  {
    var t := Hit(h, d, pos);
    if max == 0 || t < 0 then [] else [t] + SplitFrom(h, d, t + |d|, max - 1)
  }

  /** Splitting goes by all occurrences in turn. */
  ghost predicate SplitsAll(h: string, d: string, max: nat, parts: seq<nat>) {
    && Greedy(h, d, parts)
    && (|parts| < max ==> forall s: nat :: s >= After(d, parts) ==> !Occurs(h, d, s))
  }

  /** The positions of up to `max` delimiters. */
  method Split(source: string, delimiter: string, max: nat) returns (parts: seq<nat>)
    requires |source| > 0 && |delimiter| > 0
    ensures parts == SplitFrom(source, delimiter, 0, max)
    ensures |parts| <= max && Parts(source, delimiter, parts)
    ensures Findable(delimiter) ==> SplitsAll(source, delimiter, max, parts)
  {
    hide Occurs, IsFirst, Findable, Greedy, SplitsAll, Parts;
    parts := [];
    SplitGives(source, delimiter, max);
    if |delimiter| > |source| {
      return;
    }
    var n := Prefix(delimiter);
    var pos: nat, left: nat := 0, max;
    var hit := -1;
    while left > 0
      invariant left + |parts| == max && pos <= |source|
      invariant parts + SplitFrom(source, delimiter, pos, left) == SplitFrom(source, delimiter, 0, max)
      decreases left
    {
      FindRight(source, delimiter, n, pos);
      hit := Find(source, delimiter, n, pos);
      if hit < 0 {
        break;
      }
      HitInside(source, delimiter, hit);
      ghost var rest := SplitFrom(source, delimiter, hit + |delimiter|, left - 1);
      assert parts + ([hit] + rest) == (parts + [hit]) + rest;
      parts := parts + [hit];
      pos := hit + |delimiter|;
      left := left - 1;
    }
  }

  /** What splitting gives from the start. */
  lemma SplitGives(h: string, d: string, max: nat)
    requires |d| > 0
    ensures var r := SplitFrom(h, d, 0, max);
            |r| <= max && Parts(h, d, r) && (Findable(d) ==> SplitsAll(h, d, max, r))
  {
    SplitRight(h, d, [], max);
    assert [] + SplitFrom(h, d, 0, max) == SplitFrom(h, d, 0, max);
  }

  /** `split` finds all delimiters in turn, in every string, exactly for findable ones. */
  lemma SplitExact(d: string)
    requires |d| > 0
    ensures Findable(d) <==> forall h: string, max: nat :: SplitsAll(h, d, max, SplitFrom(h, d, 0, max))
  {
    if Findable(d) {
      forall h: string, max: nat
        ensures SplitsAll(h, d, max, SplitFrom(h, d, 0, max))
      {
        SplitGives(h, d, max);
      }
    } else {
      var h, s := Unseen(d);
      assert SplitFrom(h, d, 0, 1) == [] && !SplitsAll(h, d, 1, []);
    }
  }

  lemma {:induction false} SplitRight(h: string, d: string, parts: seq<nat>, left: nat)
    requires |d| > 0 && Parts(h, d, parts) && After(d, parts) <= |h|
    ensures var r := parts + SplitFrom(h, d, After(d, parts), left);
            && |r| <= |parts| + left && Parts(h, d, r)
            && (Findable(d) && Greedy(h, d, parts) ==> SplitsAll(h, d, |parts| + left, r))
    decreases left
  {
    hide Occurs, IsFirst, Parts, Greedy, Findable, After, SplitsAll;
    var pos := After(d, parts);
    var t := Hit(h, d, pos);
    if left == 0 || t < 0 {
      assert parts + [] == parts;
      if Findable(d) && Greedy(h, d, parts) { SplitDone(h, d, parts, left); }
    } else {
      GreedyNext(h, d, parts, t);
      HitInside(h, d, t);
      SplitRight(h, d, parts + [t], left - 1);
      var rest := SplitFrom(h, d, t + |d|, left - 1);
      assert parts + ([t] + rest) == (parts + [t]) + rest;
    }
  }

  lemma HitInside(h: string, d: string, t: nat)
    requires Occurs(h, d, t)
    ensures t + |d| <= |h|
  {
  }

  lemma SplitDone(h: string, d: string, parts: seq<nat>, left: nat)
    requires |d| > 0 && After(d, parts) <= |h| && Findable(d) && Greedy(h, d, parts)
    requires left == 0 || Hit(h, d, After(d, parts)) < 0
    ensures SplitsAll(h, d, |parts| + left, parts)
  {
    hide Findable, Hit, Occurs, Greedy;
  }

  lemma GreedyNext(h: string, d: string, parts: seq<nat>, hit: nat)
    requires Parts(h, d, parts) && Occurs(h, d, hit) && hit >= After(d, parts)
    ensures Parts(h, d, parts + [hit]) && After(d, parts + [hit]) == hit + |d|
    ensures Greedy(h, d, parts) && IsFirst(h, d, After(d, parts), hit) ==> Greedy(h, d, parts + [hit])
  {
    hide Occurs, IsFirst;
    if Greedy(h, d, parts) && IsFirst(h, d, After(d, parts), hit) {
      GreedyMore(h, d, parts, hit);
    }
  }

  lemma GreedyMore(h: string, d: string, parts: seq<nat>, hit: nat)
    requires Greedy(h, d, parts) && IsFirst(h, d, After(d, parts), hit)
    ensures Greedy(h, d, parts + [hit])
  {
    hide IsFirst, After;
    var more := parts + [hit];
    forall k | 0 <= k < |more|
      ensures IsFirst(h, d, After(d, more[..k]), more[k])
    {
      assert more[..k] == parts[..k];
      if k == |parts| { assert parts[..k] == parts; }
    }
  }
}
