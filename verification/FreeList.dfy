/** Circular doubly-linked lists threaded through memory words: the `prev` word of a cell
    at address `a` is the word at `a`, its `next` word the one at `a + 8`. */
module FreeList {

  type Memory = map<nat, nat>

  const LINK_SIZE: nat := 16

  function At(m: Memory, a: nat): nat { if a in m then m[a] else 0 }
  function Prev(m: Memory, a: nat): nat { At(m, a) }
  function Next(m: Memory, a: nat): nat { At(m, a + 8) }
  function SetPrev(m: Memory, a: nat, v: nat): Memory { m[a := v] }
  function SetNext(m: Memory, a: nat, v: nat): Memory { m[a + 8 := v] }

  /** Cells that do not share a byte. */
  predicate Apart(a: nat, b: nat) { a + LINK_SIZE <= b || b + LINK_SIZE <= a }

  predicate AllApart(xs: seq<nat>) {
    forall i, j :: 0 <= i < j < |xs| ==> Apart(xs[i], xs[j])
  }

  predicate ApartFrom(c: nat, xs: seq<nat>) {
    forall i :: 0 <= i < |xs| ==> Apart(c, xs[i])
  }

  function After(r: seq<nat>, j: nat): nat
    requires j < |r|
  {
    if j + 1 < |r| then r[j + 1] else r[0]
  }

  function Before(r: seq<nat>, j: nat): nat
    requires j < |r|
  {
    if j > 0 then r[j - 1] else r[|r| - 1]
  }

  /** The cells of `r`, the list head first, form one circle in both directions. */
  ghost predicate Circle(m: Memory, r: seq<nat>) {
    && r != []
    && AllApart(r)
    && (forall j :: 0 <= j < |r| ==> Next(m, r[j]) == After(r, j))
    && (forall j :: 0 <= j < |r| ==> Prev(m, r[j]) == Before(r, j))
  }

  /** The words of the cell at `c` are the same in both memories. */
  ghost predicate SameCell(m: Memory, m': Memory, c: nat) {
    At(m, c) == At(m', c) && At(m, c + 8) == At(m', c + 8)
  }

  lemma CircleFrame(m: Memory, m': Memory, r: seq<nat>)
    requires Circle(m, r)
    requires forall i :: 0 <= i < |r| ==> SameCell(m, m', r[i])
    ensures Circle(m', r)
  {
  }

  // ------------------------------------------------------------------ operations

  /** `clear` */
  function Cleared(m: Memory, s: nat): Memory { SetNext(SetPrev(m, s, s), s, s) }

  /** `push` */
  function Pushed(m: Memory, s: nat, e: nat): Memory {
    var m1 := SetPrev(m, e, Prev(m, s));
    var m2 := SetNext(m1, e, s);
    var m3 := SetNext(m2, Prev(m2, s), e);
    SetPrev(m3, s, e)
  }

  /** `remove` */
  function Removed(m: Memory, e: nat): Memory {
    var m1 := SetNext(m, Prev(m, e), Next(m, e));
    SetPrev(m1, Next(m1, e), Prev(m1, e))
  }

  lemma ClearedCircle(m: Memory, s: nat)
    ensures Circle(Cleared(m, s), [s])
    ensures forall c :: Apart(c, s) ==> SameCell(m, Cleared(m, s), c)
    ensures forall a :: Off(a, s) ==> At(Cleared(m, s), a) == At(m, a)
  {
  }

  /** The four words that `push` writes. */
  lemma PushedWords(m: Memory, s: nat, e: nat, a: nat)
    requires Apart(e, s)
    ensures At(Pushed(m, s, e), a)
         == if a == s then e
            else if a == Prev(m, s) + 8 then e
            else if a == e + 8 then s
            else if a == e then Prev(m, s)
            else At(m, a)
  {
  }

  lemma CircleAt(m: Memory, r: seq<nat>, i: nat)
    requires Circle(m, r) && (i == 0 || i < |r|)
    ensures r != [] && AllApart(r) && Next(m, r[i]) == After(r, i) && Prev(m, r[i]) == Before(r, i)
  {
  }

  lemma CircleIntro(m: Memory, r: seq<nat>)
    requires r != [] && AllApart(r)
    requires forall j :: 0 <= j < |r| ==> Next(m, r[j]) == After(r, j) && Prev(m, r[j]) == Before(r, j)
    ensures Circle(m, r)
  {
  }

  lemma ApartAt(r: seq<nat>, i: nat, j: nat)
    requires AllApart(r) && i < |r| && j < |r| && i != j
    ensures Apart(r[i], r[j])
  {
    assert Apart(r[i], r[j]) || Apart(r[j], r[i]);
  }

  lemma PushedAt(m: Memory, r: seq<nat>, e: nat, j: nat)
    requires Circle(m, r) && ApartFrom(e, r) && j < |r|
    ensures Next(Pushed(m, r[0], e), r[j]) == if j + 1 < |r| then r[j + 1] else e
    ensures Prev(Pushed(m, r[0], e), r[j]) == if j > 0 then r[j - 1] else e
  {
    hide Circle, AllApart, Pushed;
    var l := |r| - 1;
    CircleAt(m, r, 0);
    CircleAt(m, r, j);
    if j > 0 { ApartAt(r, 0, j); }
    if j < l { ApartAt(r, j, l); }
    assert Apart(e, r[0]) && Apart(e, r[j]) && Apart(e, r[l]);
    hide ApartFrom;
    PushedWords(m, r[0], e, r[j]);
    PushedWords(m, r[0], e, r[j] + 8);
  }

  lemma PushedNew(m: Memory, r: seq<nat>, e: nat)
    requires Circle(m, r) && ApartFrom(e, r)
    ensures Next(Pushed(m, r[0], e), e) == r[0] && Prev(Pushed(m, r[0], e), e) == r[|r| - 1]
  {
    hide Circle, AllApart, Pushed;
    CircleAt(m, r, 0);
    assert Apart(e, r[0]) && Apart(e, r[|r| - 1]);
    PushedWords(m, r[0], e, e);
    PushedWords(m, r[0], e, e + 8);
  }

  /** `push` appends at the back ... */
  lemma PushedCircle(m: Memory, r: seq<nat>, e: nat)
    requires Circle(m, r) && ApartFrom(e, r)
    ensures Circle(Pushed(m, r[0], e), r + [e])
  {
    var m' := Pushed(m, r[0], e);
    var q := r + [e];
    forall j | 0 <= j < |q|
      ensures Next(m', q[j]) == After(q, j) && Prev(m', q[j]) == Before(q, j)
    {
      hide Circle, AllApart, ApartFrom, Pushed, Next, Prev;
      if j < |r| { PushedAt(m, r, e, j); } else { PushedNew(m, r, e); }
    }
  }

  /** ... and touches only this list and the new cell. */
  lemma PushedFrame(m: Memory, r: seq<nat>, e: nat, c: nat)
    requires Circle(m, r) && ApartFrom(e, r) && Apart(c, e) && ApartFrom(c, r)
    ensures SameCell(m, Pushed(m, r[0], e), c)
  {
    hide Circle, AllApart, Pushed;
    CircleAt(m, r, 0);
    assert Apart(e, r[0]) && Apart(c, r[0]) && Apart(c, r[|r| - 1]);
    PushedWords(m, r[0], e, c);
    PushedWords(m, r[0], e, c + 8);
  }

  /** A word outside the cell at `c`. */
  predicate Off(a: nat, c: nat) { a != c && a != c + 8 }

  predicate OffAll(a: nat, r: seq<nat>) { forall i :: 0 <= i < |r| ==> Off(a, r[i]) }

  lemma PushedKeeps(m: Memory, r: seq<nat>, e: nat, a: nat)
    requires Circle(m, r) && ApartFrom(e, r) && Off(a, e) && OffAll(a, r)
    ensures At(Pushed(m, r[0], e), a) == At(m, a)
  {
    hide Circle, AllApart, Pushed;
    CircleAt(m, r, 0);
    assert Apart(e, r[0]) && Off(a, r[0]) && Off(a, r[|r| - 1]);
    PushedWords(m, r[0], e, a);
  }

  /** The two words that `remove` writes. */
  lemma RemovedWords(m: Memory, e: nat, a: nat)
    requires Apart(Prev(m, e), e) && Apart(Next(m, e), e)
    ensures At(Removed(m, e), a)
         == if a == Next(m, e) then Prev(m, e)
            else if a == Prev(m, e) + 8 then Next(m, e)
            else At(m, a)
  {
  }

  lemma RemovedAt(m: Memory, r: seq<nat>, k: nat, i: nat)
    requires Circle(m, r) && 0 < k < |r| && i < |r| && i != k
    ensures Next(Removed(m, r[k]), r[i]) == if i == k - 1 then After(r, k) else After(r, i)
    ensures Prev(Removed(m, r[k]), r[i]) == if i == (if k + 1 < |r| then k + 1 else 0) then r[k - 1] else Before(r, i)
  {
    hide Circle, AllApart, Removed;
    var e := r[k];
    var p, n := k - 1, if k + 1 < |r| then k + 1 else 0;
    CircleAt(m, r, k);
    CircleAt(m, r, i);
    ApartAt(r, p, k);
    ApartAt(r, n, k);
    if i != p { ApartAt(r, i, p); }
    if i != n { ApartAt(r, i, n); }
    RemovedWords(m, e, r[i]);
    RemovedWords(m, e, r[i] + 8);
  }

  /** `remove` takes one cell out without being told its list. */
  lemma RemovedCircle(m: Memory, r: seq<nat>, k: nat)
    requires Circle(m, r) && 0 < k < |r|
    ensures Circle(Removed(m, r[k]), r[..k] + r[k + 1..])
  {
    hide Circle, Removed, Next, Prev;
    var m' := Removed(m, r[k]);
    var q := r[..k] + r[k + 1..];
    CircleAt(m, r, 0);
    forall j | 0 <= j < |q|
      ensures Next(m', q[j]) == After(q, j) && Prev(m', q[j]) == Before(q, j)
    {
      hide AllApart;
      RemovedAt(m, r, k, if j < k then j else j + 1);
    }
    forall i, j | 0 <= i < j < |q|
      ensures Apart(q[i], q[j])
    {
      ApartAt(r, if i < k then i else i + 1, if j < k then j else j + 1);
    }
    CircleIntro(m', q);
  }

  lemma RemovedKeeps(m: Memory, r: seq<nat>, k: nat, a: nat)
    requires Circle(m, r) && 0 < k < |r| && OffAll(a, r)
    ensures At(Removed(m, r[k]), a) == At(m, a)
  {
    hide Circle, AllApart, Removed;
    var p, n := k - 1, if k + 1 < |r| then k + 1 else 0;
    CircleAt(m, r, k);
    ApartAt(r, p, k);
    ApartAt(r, n, k);
    RemovedWords(m, r[k], a);
    assert Off(a, r[p]) && Off(a, r[n]);
  }

  lemma RemovedFrame(m: Memory, r: seq<nat>, k: nat, c: nat)
    requires Circle(m, r) && 0 < k < |r| && ApartFrom(c, r)
    ensures SameCell(m, Removed(m, r[k]), c)
  {
    hide Circle, AllApart, Removed;
    var p, n := k - 1, if k + 1 < |r| then k + 1 else 0;
    CircleAt(m, r, k);
    ApartAt(r, p, k);
    ApartAt(r, n, k);
    RemovedWords(m, r[k], c);
    RemovedWords(m, r[k], c + 8);
    assert Apart(c, r[p]) && Apart(c, r[n]);
  }
}
