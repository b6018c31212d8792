/** The recursive mutex as a step system: unsynchronised reads of `owner` and `recursion`, and an
    abstract mutex underneath. */
module RecursiveMutex {

  /** Where a thread is between two accesses to the shared fields. */
  datatype Place =
    | Outside            // not in any operation
    | CheckOwner         // about to compare `owner` with its thread id
    | CheckMain          // about to compare `owner` with 0, for the main thread
    | CheckCount         // about to compare `recursion` with its maximum
    | CheckAdd           // about to increment `recursion`
    | Acquiring          // about to lock, or try to lock, the mutex
    | AssignCount        // has the mutex, about to set `recursion`
    | AssignOwner        // about to store its thread id
    | AssignMain         // about to replace its thread id by 0, if it is the main thread
    | Leaving            // about to decrement `recursion`
    | ClearOwner         // about to set `owner` to -1
    | Releasing          // about to unlock the mutex

  /** What one thread knows: its place, and how often it has locked more than unlocked. */
  datatype Thread = Thread(place: Place, depth: nat)

  /** Thread ids are the keys; `main` is the process id, which is the id of the main thread. */
  datatype State = State(held: bool, owner: int, recursion: nat, main: nat, threads: map<nat, Thread>)

  const UINT64_MAX: nat := 0xFFFF_FFFF_FFFF_FFFF

  datatype Step =
    | Lock(t: nat)                    // the call of lock or trylock
    | ReadOwner(t: nat)
    | ReadMain(t: nat)
    | ReadCount(t: nat)
    | AddCount(t: nat)                // check() succeeds
    | Acquire(t: nat)                 // the mutex is locked
    | GiveUp(t: nat)                  // trylock fails, or waiting times out
    | SetCount(t: nat)
    | SetOwner(t: nat)
    | SetMain(t: nat)                 // lock() returns
    | Unlock(t: nat)                  // the call of unlock, by a thread that has the lock
    | SubCount(t: nat)
    | DropOwner(t: nat)
    | Release(t: nat)

  /** Whether thread `t` holds the lock from its own point of view. */
  predicate Has(x: Thread) { x.depth > 0 }

  ghost predicate Enabled(s: State, a: Step) {
    && a.t in s.threads
    && var x := s.threads[a.t];
       match a
       case Lock(_) => x.place.Outside?
       case ReadOwner(_) => x.place.CheckOwner?
       case ReadMain(_) => x.place.CheckMain?
       case ReadCount(_) => x.place.CheckCount?
       case AddCount(_) => x.place.CheckAdd?
       case Acquire(_) => x.place.Acquiring? && !s.held
       case GiveUp(_) => x.place.Acquiring?
       case SetCount(_) => x.place.AssignCount?
       case SetOwner(_) => x.place.AssignOwner?
       case SetMain(_) => x.place.AssignMain?
       case Unlock(_) => x.place.Outside? && Has(x)
       case SubCount(_) => x.place.Leaving?
       case DropOwner(_) => x.place.ClearOwner?
       case Release(_) => x.place.Releasing?
  }

  function Put(s: State, t: nat, p: Place, d: int): State
    requires t in s.threads
  {
    s.(threads := s.threads[t := Thread(p, if d < 0 then 0 else d)])
  }

  /** The state after a step; `depth` is bookkeeping only. */
  ghost function Take(s: State, a: Step): State
    requires Enabled(s, a)
  {
    var t, d := a.t, s.threads[a.t].depth;
    match a
    case Lock(_) => Put(s, t, CheckOwner, d)
    case ReadOwner(_) => Put(s, t, if s.owner == t then CheckCount else CheckMain, d)
    case ReadMain(_) => Put(s, t, if s.owner == 0 && t == s.main then CheckCount else Acquiring, d)
    case ReadCount(_) => Put(s, t, if s.recursion < UINT64_MAX then CheckAdd else Acquiring, d)
    case AddCount(_) => Put(s, t, Outside, d + 1).(recursion := s.recursion + 1)
    case Acquire(_) => Put(s, t, AssignCount, d).(held := true)
    case GiveUp(_) => Put(s, t, Outside, d)
    case SetCount(_) => Put(s, t, AssignOwner, d).(recursion := 1)
    case SetOwner(_) => Put(s, t, AssignMain, d).(owner := t)
    case SetMain(_) => Put(s, t, Outside, d + 1).(owner := if t == s.main then 0 else s.owner)
    case Unlock(_) => Put(s, t, Leaving, d)
    case SubCount(_) =>
      Put(s, t, if s.recursion - 1 == 0 then ClearOwner else Outside,
          d - 1).(recursion := if s.recursion > 0 then s.recursion - 1 else UINT64_MAX)
    case DropOwner(_) => Put(s, t, Releasing, d).(owner := -1)
    case Release(_) => Put(s, t, Outside, d).(held := false)
  }

  ghost predicate Initial(s: State) {
    && !s.held && s.owner == -1 && s.recursion == 0 && 0 !in s.threads
    && forall t :: t in s.threads ==> s.threads[t] == Thread(Outside, 0)
  }

  ghost predicate Run(states: seq<State>, steps: seq<Step>) {
    && |states| == |steps| + 1 && Initial(states[0])
    && forall k :: 0 <= k < |steps| ==> Enabled(states[k], steps[k]) && states[k + 1] == Take(states[k], steps[k])
  }

  // ------------------------------------------------------------------ the invariant

  /** Threads that have the mutex: with a lock count, or between acquiring and counting, or
      between the last count and releasing. */
  predicate Inside(x: Thread) {
    || Has(x) || x.place.AssignCount? || x.place.AssignOwner? || x.place.AssignMain?
    || x.place.ClearOwner? || x.place.Releasing?
  }

  /** How the owner is stored for thread `t`. */
  function Stored(s: State, t: nat): int { if t == s.main then 0 else t }

  /** The fields, as the thread inside sees them at its place. */
  predicate Fits(s: State, t: nat, x: Thread) {
    match x.place
    case AssignCount => x.depth == 0 && s.owner == -1 && s.recursion == 0
    case AssignOwner => x.depth == 0 && s.owner == -1 && s.recursion == 1
    case AssignMain => x.depth == 0 && s.owner == t && s.recursion == 1
    case ClearOwner => x.depth == 0 && s.owner == Stored(s, t) && s.recursion == 0
    case Releasing => x.depth == 0 && s.owner == -1 && s.recursion == 0
    case _ => x.depth > 0 && s.owner == Stored(s, t) && s.recursion == x.depth
  }

  /** Places that are reached only by the thread that has the lock. */
  predicate OwnersPlace(p: Place) { p.CheckCount? || p.CheckAdd? || p.Leaving? }

  ghost predicate OneInside(s: State) {
    && 0 !in s.threads
    && (forall t, u :: t in s.threads && u in s.threads && Inside(s.threads[t]) && Inside(s.threads[u]) ==> t == u)
    && (s.held <==> exists t :: t in s.threads && Inside(s.threads[t]))
  }

  ghost predicate FieldsFit(s: State) {
    && (forall t :: t in s.threads && Inside(s.threads[t]) ==> Fits(s, t, s.threads[t]))
    && (!s.held ==> s.owner == -1 && s.recursion == 0)
    && s.recursion <= UINT64_MAX
  }

  /** What a thread may conclude from having come to its place. */
  predicate Earned(s: State, t: nat, x: Thread) {
    && (OwnersPlace(x.place) ==> Has(x))
    && (x.place.CheckAdd? ==> s.recursion < UINT64_MAX)
    && (x.place.CheckMain? && Has(x) ==> t == s.main)
    && (x.place.Acquiring? && Has(x) ==> s.recursion == UINT64_MAX)
  }

  ghost predicate AllEarned(s: State) { forall t :: t in s.threads ==> Earned(s, t, s.threads[t]) }

  ghost predicate Invariant(s: State) { OneInside(s) && FieldsFit(s) && AllEarned(s) }

  /** The step of a thread that is not inside, seen by itself: it learns the truth from the racy
      reads, because only its own entry could make them say that it has the lock. */
  lemma OutsiderReads(s: State, t: nat)
    requires Invariant(s) && t in s.threads && !Inside(s.threads[t])
    ensures s.owner != t && !(s.owner == 0 && t == s.main)
  {
    if s.held {
      var u :| u in s.threads && Inside(s.threads[u]);
      assert Fits(s, u, s.threads[u]) && u != t && u != 0;
    }
  }

  lemma Others(s: State, a: Step)
    requires Enabled(s, a)
    ensures var r := Take(s, a);
            && a.t in s.threads && r.threads.Keys == s.threads.Keys && r.main == s.main
            && forall u :: u in s.threads && u != a.t ==> r.threads[u] == s.threads[u]
  {
  }

  lemma StepOneInside(s: State, a: Step)
    requires Enabled(s, a) && Invariant(s)
    ensures OneInside(Take(s, a))
  {
    var r, t := Take(s, a), a.t;
    Others(s, a);
    if !Inside(s.threads[t]) { OutsiderReads(s, t); }
    assert Earned(s, t, s.threads[t]);
    assert Inside(s.threads[t]) ==> Fits(s, t, s.threads[t]);
    InsideChange(s, a);
    hide Take, Enabled, FieldsFit, AllEarned, Fits, Earned, Inside;
    if Inside(r.threads[t]) == Inside(s.threads[t]) {
      assert forall u :: u in s.threads ==> (Inside(r.threads[u]) <==> Inside(s.threads[u]));
    }
  }

  /** Only acquiring and releasing change who is inside. */
  lemma InsideChange(s: State, a: Step)
    requires Enabled(s, a)
    requires Inside(s.threads[a.t]) ==> Fits(s, a.t, s.threads[a.t])
    requires Earned(s, a.t, s.threads[a.t])
    ensures var r := Take(s, a);
            && (a.Acquire? && !Inside(s.threads[a.t]) ==> !s.held && r.held && Inside(r.threads[a.t]))
            && (a.Release? ==> Inside(s.threads[a.t]) && !r.held && !Inside(r.threads[a.t]))
            && (!a.Acquire? && !a.Release? ==> r.held == s.held && Inside(r.threads[a.t]) == Inside(s.threads[a.t]))
            && (a.Acquire? ==> !s.held)
  {
  }

  /** What the acting thread does to the fields. */
  lemma OwnStep(s: State, a: Step)
    requires Enabled(s, a) && Invariant(s)
    ensures var r, t := Take(s, a), a.t;
            && (Inside(r.threads[t]) ==> Fits(r, t, r.threads[t]))
            && Earned(r, t, r.threads[t])
            && (!Inside(s.threads[t]) && !a.Acquire? ==> r.owner == s.owner && r.recursion == s.recursion)
            && (!r.held && a.Release? ==> r.owner == -1 && r.recursion == 0)
            && r.recursion <= UINT64_MAX
  {
    var t := a.t;
    if !Inside(s.threads[t]) { OutsiderReads(s, t); }
    assert Earned(s, t, s.threads[t]);
    assert Inside(s.threads[t]) ==> Fits(s, t, s.threads[t]) && s.held;
    hide OneInside, AllEarned, FieldsFit, Take, Enabled, Inside, Earned, Fits;
    OwnStepFrom(s, a);
  }

  lemma OwnStepFrom(s: State, a: Step)
    requires Enabled(s, a) && a.t != 0 && Earned(s, a.t, s.threads[a.t])
    requires Inside(s.threads[a.t]) ==> Fits(s, a.t, s.threads[a.t]) && s.held
    requires !Inside(s.threads[a.t]) ==> s.owner != a.t && !(s.owner == 0 && a.t == s.main)
    requires !s.held ==> s.owner == -1 && s.recursion == 0
    requires s.recursion <= UINT64_MAX
    ensures var r, t := Take(s, a), a.t;
            && (Inside(r.threads[t]) ==> Fits(r, t, r.threads[t]))
            && Earned(r, t, r.threads[t])
            && (!Inside(s.threads[t]) && !a.Acquire? ==> r.owner == s.owner && r.recursion == s.recursion)
            && (!r.held && a.Release? ==> r.owner == -1 && r.recursion == 0)
            && r.recursion <= UINT64_MAX
  {
  }

  lemma StepFieldsFit(s: State, a: Step)
    requires Enabled(s, a) && Invariant(s)
    ensures FieldsFit(Take(s, a)) && AllEarned(Take(s, a))
  {
    var r, t := Take(s, a), a.t;
    Others(s, a);
    OwnStep(s, a);
    InsideChange(s, a);
    StepOneInside(s, a);
    hide Take, Enabled, Inside, Earned, Fits;
    forall u | u in r.threads && u != t && Inside(r.threads[u])
      ensures Fits(r, u, r.threads[u])
    {
      assert Fits(s, u, s.threads[u]);
      SameFit(s, r, u, r.threads[u]);
    }
    forall u | u in r.threads && u != t
      ensures Earned(r, u, r.threads[u])
    {
      assert Earned(s, u, s.threads[u]);
      StillEarned(s, r, t, u);
    }
  }

  lemma SameFit(s: State, r: State, u: nat, x: Thread)
    requires Fits(s, u, x) && r.owner == s.owner && r.recursion == s.recursion && r.main == s.main
    ensures Fits(r, u, x)
  {
  }

  lemma StillEarned(s: State, r: State, t: nat, u: nat)
    requires OneInside(s) && t in s.threads && u in s.threads && u != t && u in r.threads
        && r.threads[u] == s.threads[u]
    requires Earned(s, u, s.threads[u]) && r.main == s.main
    requires Inside(s.threads[t]) || r.recursion == s.recursion || !s.held
    ensures Earned(r, u, r.threads[u])
  {
    if Has(s.threads[u]) {
      assert Inside(s.threads[u]);
    }
  }

  lemma StepInvariant(s: State, a: Step)
    requires Enabled(s, a) && Invariant(s)
    ensures Invariant(Take(s, a))
  {
    hide Take, OneInside, FieldsFit, AllEarned, Enabled;
    StepOneInside(s, a);
    StepFieldsFit(s, a);
  }

  lemma {:induction false} RunInvariant(states: seq<State>, steps: seq<Step>, k: nat)
    requires Run(states, steps) && k < |states|
    ensures Invariant(states[k])
    decreases k
  {
    if k > 0 {
      hide Invariant, Enabled, Take;
      RunInvariant(states, steps, k - 1);
      StepInvariant(states[k - 1], steps[k - 1]);
    }
  }

  // ------------------------------------------------------------------ what it guarantees

  /** In every run, `check` succeeds only for a thread that already has the lock; and a thread that
      has it gets past `check` unless the count is at its maximum. */
  lemma CheckIsExact(states: seq<State>, steps: seq<Step>, k: nat, t: nat)
    requires Run(states, steps) && k < |states| && t in states[k].threads
    ensures states[k].threads[t].place.CheckAdd? ==> Has(states[k].threads[t])
    ensures states[k].threads[t].place.Acquiring? ==> !Has(states[k].threads[t]) || states[k].recursion == UINT64_MAX
  {
    RunInvariant(states, steps, k);
    assert Earned(states[k], t, states[k].threads[t]);
  }

  /** Only one thread has the lock, and `recursion` is how often it has locked more than unlocked. */
  lemma CountsLocks(states: seq<State>, steps: seq<Step>, k: nat, t: nat, u: nat)
    requires Run(states, steps) && k < |states| && t in states[k].threads && u in states[k].threads
    requires Has(states[k].threads[t])
    ensures Has(states[k].threads[u]) ==> t == u
    ensures states[k].recursion == states[k].threads[t].depth && states[k].held
    ensures states[k].owner == if t == states[k].main then 0 else t
  {
    RunInvariant(states, steps, k);
    assert Inside(states[k].threads[t]) && Fits(states[k], t, states[k].threads[t]);
    assert Has(states[k].threads[u]) ==> Inside(states[k].threads[u]);
  }

  /** Threads that are on their way from the last count to releasing the mutex. */
  predicate OnTheWayOut(p: Place) { p.ClearOwner? || p.Releasing? }

  /** Only an unlock that brings the count to zero sends its thread on to release the mutex; only
      the release frees it, and then no thread has the lock. */
  ghost predicate ReleasedInOrder(s: State, a: Step, r: State) {
    && a.t in s.threads && r.threads.Keys == s.threads.Keys
    && (a.SubCount? ==> s.threads[a.t].depth > 0 && r.threads[a.t].depth == s.threads[a.t].depth - 1)
    && (forall t :: t in s.threads && !OnTheWayOut(s.threads[t].place) ==>
          (OnTheWayOut(r.threads[t].place) <==> a == SubCount(t) && r.threads[t].depth == 0))
    && (s.held && !r.held <==> a.Release?)
    && (a.Release? ==> OnTheWayOut(s.threads[a.t].place) && forall t :: t in s.threads ==> s.threads[t].depth == 0)
  }

  /** The same for the acting thread alone. */
  lemma OwnRelease(s: State, a: Step)
    requires Enabled(s, a) && Earned(s, a.t, s.threads[a.t])
        && (Inside(s.threads[a.t]) ==> Fits(s, a.t, s.threads[a.t]))
    ensures a.t in Take(s, a).threads
    ensures var x, y := s.threads[a.t], Take(s, a).threads[a.t];
            && (a.SubCount? ==> x.depth > 0 && y.depth == x.depth - 1)
            && (!OnTheWayOut(x.place) ==> (OnTheWayOut(y.place) <==> a.SubCount? && y.depth == 0))
            && (a.Release? ==> OnTheWayOut(x.place) && Inside(x) && !Take(s, a).held)
            && (OnTheWayOut(x.place) ==> x.depth == 0)
            && (!a.Release? && s.held ==> Take(s, a).held)
  {
  }

  /** What the invariant says about one thread. */
  lemma About(s: State, t: nat)
    requires Invariant(s) && t in s.threads
    ensures Earned(s, t, s.threads[t]) && (Inside(s.threads[t]) ==> Fits(s, t, s.threads[t]) && s.held)
    ensures Inside(s.threads[t]) ==> forall u :: u in s.threads && u != t ==> s.threads[u].depth == 0
  {
    assert forall u :: u in s.threads && Has(s.threads[u]) ==> Inside(s.threads[u]);
  }

  lemma StepReleases(s: State, a: Step)
    requires Enabled(s, a) && Invariant(s)
    ensures ReleasedInOrder(s, a, Take(s, a))
  {
    hide Earned, Fits, Invariant, Take, Enabled, Inside, OnTheWayOut;
    Others(s, a);
    About(s, a.t);
    OwnRelease(s, a);
  }

  /** In every run the mutex is released exactly when the lock count comes down to zero. */
  lemma ReleasesAtZero(states: seq<State>, steps: seq<Step>, k: nat)
    requires Run(states, steps) && k < |steps|
    ensures ReleasedInOrder(states[k], steps[k], states[k + 1])
  {
    RunInvariant(states, steps, k);
    assert Enabled(states[k], steps[k]);
    StepReleases(states[k], steps[k]);
  }

  /** The assertions in the source hold whenever they are reached. */
  lemma AssertionsHold(states: seq<State>, steps: seq<Step>, k: nat)
    requires Run(states, steps) && k < |steps|
    ensures var s, a := states[k], steps[k];
            && (a.AddCount? ==> s.recursion > 0)
            && (a.SetCount? ==> s.owner == -1 && s.recursion == 0)
            && (a.SetMain? ==> s.owner > 0)
            && (a.SubCount? ==> s.recursion > 0 && (s.owner == 0 || s.owner == a.t))
  {
    RunInvariant(states, steps, k);
    var s, a := states[k], steps[k];
    assert Enabled(s, a);
    assert Earned(s, a.t, s.threads[a.t]);
    assert Inside(s.threads[a.t]) ==> Fits(s, a.t, s.threads[a.t]);
  }
}
