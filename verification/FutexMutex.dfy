/** The three-state futex mutex as a step system: every atomic operation on the variable and
    every futex call is one step, taken by any of the threads in any order. Nothing in the mutex
    ties unlocking to the thread that locked, so one that holds it may leave that to another. */
module FutexMutex {

  datatype Var = Unlocked | Locked | LockedWithWaiters

  /** Where a thread is: outside the lock (Idle or Holding) or between two steps of an operation. */
  datatype Place =
    | Idle
    | Contending   // about to exchange LockedWithWaiters in
    | Waiting      // about to call FUTEX_WAIT
    | Sleeping     // in the futex queue
    | Holding
    | Waking       // has released the lock and is about to call FUTEX_WAKE

  datatype State = State(value: Var, threads: seq<Place>)

  /** How FUTEX_WAIT ends for a thread that was put to sleep without being woken. */
  datatype Interruption = Interrupted | TimedOut

  datatype Step =
    | LockFirst(t: nat)          // lock(): the compare-and-exchange
    | LockExchange(t: nat)       // lock(): the exchange, before and inside the loop
    | FutexWait(t: nat)          // lock(): the comparison and queueing in the kernel
    | WaitEnds(t: nat, how: Interruption)
    | TryLock(t: nat)
    | UnlockExchange(t: nat)
    | FutexWake(t: nat, sleeper: nat)
    | HandOver(t: nat, heir: nat)  // no operation: from now on thread `heir` is the one to unlock

  function Put(s: State, t: nat, p: Place): (r: State)
    requires t < |s.threads|
    ensures |r.threads| == |s.threads| && r.threads[t] == p
  {
    s.(threads := s.threads[t := p])
  }

  /** Whether a step can be taken. Waking names a sleeper if there is one. */
  ghost predicate Enabled(s: State, a: Step) {
    && a.t < |s.threads|
    && match a
       case LockFirst(t) => s.threads[t].Idle?
       case LockExchange(t) => s.threads[t].Contending?
       case FutexWait(t) => s.threads[t].Waiting?
       case WaitEnds(t, _) => s.threads[t].Sleeping?
       case TryLock(t) => s.threads[t].Idle?
       case UnlockExchange(t) => s.threads[t].Holding?
       case FutexWake(t, u) =>
         s.threads[t].Waking? && ((exists v :: 0 <= v < |s.threads| && s.threads[v].Sleeping?)
             ==> u < |s.threads| && s.threads[u].Sleeping?)
       case HandOver(t, u) => s.threads[t].Holding? && u < |s.threads| && s.threads[u].Idle?
  }

  /** The state after a step. */
  ghost function Take(s: State, a: Step): (r: State)
    requires Enabled(s, a)
    ensures |r.threads| == |s.threads|
  {
    match a
    case LockFirst(t) =>
      (match s.value
       case Unlocked => Put(s, t, Holding).(value := Locked)
       case Locked => Put(s, t, Contending)
       case LockedWithWaiters => Put(s, t, Waiting))
    case LockExchange(t) =>
      Put(s, t, if s.value.Unlocked? then Holding else Waiting).(value := LockedWithWaiters)
    case FutexWait(t) =>
      Put(s, t, if s.value.LockedWithWaiters? then Sleeping else Contending)
    case WaitEnds(t, how) =>
      Put(s, t, if how.TimedOut? then Idle else Contending)
    case TryLock(t) =>
      if s.value.Unlocked? then Put(s, t, Holding).(value := Locked) else s
    case UnlockExchange(t) =>
      Put(s, t, if s.value.Locked? then Idle else Waking).(value := Unlocked)
    case FutexWake(t, u) =>
      if u < |s.threads| && s.threads[u].Sleeping? then Put(Put(s, u, Contending), t, Idle) else Put(s, t, Idle)
    case HandOver(t, u) => Put(Put(s, t, Idle), u, Holding)
  }

  ghost predicate Initial(s: State) {
    s.value.Unlocked? && forall t :: 0 <= t < |s.threads| ==> s.threads[t].Idle?
  }

  /** The states of a run: each follows from the one before by an enabled step. */
  ghost predicate Run(states: seq<State>, steps: seq<Step>) {
    Path(states, steps) && Initial(states[0])
  }

  ghost predicate Path(states: seq<State>, steps: seq<Step>) {
    && |states| == |steps| + 1
    && forall k :: 0 <= k < |steps| ==> Enabled(states[k], steps[k]) && states[k + 1] == Take(states[k], steps[k])
  }

  // ------------------------------------------------------------------ safety

  /** Exactly when the variable is not Unlocked, exactly one thread holds the lock. */
  ghost predicate OneHolder(s: State) {
    && (forall t, u ::
           0 <= t < |s.threads| && 0 <= u < |s.threads| && s.threads[t].Holding? && s.threads[u].Holding? ==> t == u)
    && (s.value.Unlocked? <==> forall t :: 0 <= t < |s.threads| ==> !s.threads[t].Holding?)
  }

  /** A thread that will wake a sleeper or mark the variable. */
  predicate Helper(p: Place) { p.Waking? || p.Contending? }

  /** A sleeper is covered by the mark in the variable or by a helper on its way. */
  ghost predicate NoneForgotten(s: State) {
    forall t :: 0 <= t < |s.threads| && s.threads[t].Sleeping? ==>
      s.value.LockedWithWaiters? || exists u :: 0 <= u < |s.threads| && Helper(s.threads[u])
  }

  ghost predicate Invariant(s: State) { OneHolder(s) && NoneForgotten(s) }

  /** Every step keeps mutual exclusion. */
  lemma StepKeepsOneHolder(s: State, a: Step)
    requires Enabled(s, a) && OneHolder(s)
    ensures OneHolder(Take(s, a))
  {
    var r := Take(s, a);
    if s.value.Unlocked? {
      assert !s.threads[a.t].Holding?;
    }
    if r.threads[a.t].Holding? && !s.threads[a.t].Holding? {
      assert forall u :: 0 <= u < |s.threads| && u != a.t ==> !r.threads[u].Holding?;
    } else if a.HandOver? {
      assert r.threads[a.heir].Holding? && forall u :: 0 <= u < |s.threads| && u != a.heir ==> !r.threads[u].Holding?;
    } else if a.UnlockExchange? {
      assert forall u :: 0 <= u < |s.threads| ==> !r.threads[u].Holding?;
    } else {
      assert forall u :: 0 <= u < |s.threads| ==> (r.threads[u].Holding? <==> s.threads[u].Holding?);
    }
  }

  /** Every step keeps sleepers covered. */
  lemma StepKeepsCover(s: State, a: Step)
    requires Enabled(s, a) && Invariant(s)
    ensures NoneForgotten(Take(s, a))
  {
    var r := Take(s, a);
    forall t | 0 <= t < |r.threads| && r.threads[t].Sleeping?
      ensures r.value.LockedWithWaiters? || exists u :: 0 <= u < |r.threads| && Helper(r.threads[u])
    {
      if a.UnlockExchange? && s.value.LockedWithWaiters? {
        assert Helper(r.threads[a.t]);
      } else if a.FutexWake? {
        if s.threads[t].Sleeping? { assert Helper(r.threads[a.sleeper]); }
      } else if s.threads[t].Sleeping? && !r.value.LockedWithWaiters? {
        assert a.UnlockExchange? ==> s.value.Locked?;
        var u :| 0 <= u < |s.threads| && Helper(s.threads[u]);
        assert u != a.t ==> Helper(r.threads[u]);
      }
    }
  }

  lemma {:induction false} RunInvariant(states: seq<State>, steps: seq<Step>, k: nat)
    requires Run(states, steps) && k < |states|
    ensures Invariant(states[k])
    decreases k
  {
    if k > 0 {
      RunInvariant(states, steps, k - 1);
      hide Invariant, NoneForgotten, OneHolder, Enabled, Take;
      KeepInvariant(states[k - 1], steps[k - 1]);
    }
  }

  lemma KeepInvariant(s: State, a: Step)
    requires Enabled(s, a) && Invariant(s)
    ensures Invariant(Take(s, a))
  {
    hide Take, OneHolder, NoneForgotten, Enabled;
    StepKeepsOneHolder(s, a);
    StepKeepsCover(s, a);
  }

  /** In every reachable state at most one thread holds the lock, and the variable is Unlocked
      exactly when none does. */
  lemma MutualExclusion(states: seq<State>, steps: seq<Step>, k: nat, t: nat, u: nat)
    requires Run(states, steps) && k < |states| && t < |states[k].threads| && u < |states[k].threads|
    ensures states[k].threads[t].Holding? && states[k].threads[u].Holding? ==> t == u
    ensures states[k].value.Unlocked? <==> forall v :: 0 <= v < |states[k].threads| ==> !states[k].threads[v].Holding?
  {
    RunInvariant(states, steps, k);
  }

  /** No wakeup is lost: while a thread sleeps, some thread holds the lock with the mark set, or is
      about to wake a sleeper, or is about to set the mark. In particular the system is never
      asleep with nobody left to wake it. */
  lemma NoLostWakeup(states: seq<State>, steps: seq<Step>, k: nat, t: nat) returns (u: nat)
    requires Run(states, steps) && k < |states| && t < |states[k].threads| && states[k].threads[t].Sleeping?
    ensures u < |states[k].threads| && u != t
    ensures states[k].threads[u].Waking? || states[k].threads[u].Contending?
            || (states[k].threads[u].Holding? && states[k].value.LockedWithWaiters?)
  {
    RunInvariant(states, steps, k);
    u := Covered(states[k], t);
  }

  lemma Covered(s: State, t: nat) returns (u: nat)
    requires Invariant(s) && t < |s.threads| && s.threads[t].Sleeping?
    ensures u < |s.threads| && u != t
    ensures Helper(s.threads[u]) || (s.threads[u].Holding? && s.value.LockedWithWaiters?)
  {
    if s.value.LockedWithWaiters? {
      var h :| 0 <= h < |s.threads| && s.threads[h].Holding?;
      u := h;
    } else {
      var h :| 0 <= h < |s.threads| && Helper(s.threads[h]);
      u := h;
    }
  }

  // ------------------------------------------------------------------ progress

  /** Threads in the middle of lock(). */
  predicate Wants(p: Place) { p.Contending? || p.Waiting? || p.Sleeping? }

  predicate HasLock(s: State, t: nat) { t < |s.threads| && s.threads[t].Holding? }

  /** Steps that finish what a thread has begun, without a new call, an interruption or a timeout. */
  predicate Pending(a: Step) { a.LockExchange? || a.FutexWait? || a.FutexWake? }

  /** A free lock is never lost on those who wait for it: from every reachable state at most two
      pending steps give it to one of them, also when all of them are asleep. */
  lemma FreeIsTaken(states: seq<State>, steps: seq<Step>, k: nat, t: nat)
    returns (next: seq<State>, pending: seq<Step>, u: nat)
    requires Run(states, steps) && k < |states| && t < |states[k].threads|
    requires states[k].value.Unlocked? && Wants(states[k].threads[t])
    ensures Path(next, pending) && |pending| <= 2 && next[0] == states[k] && forall a :: a in pending ==> Pending(a)
    ensures u < |states[k].threads| && Wants(states[k].threads[u]) && HasLock(next[|next| - 1], u)
  {
    var s := states[k];
    u := t;
    if s.threads[t].Sleeping? {
      u := NoLostWakeup(states, steps, k, t);
      RunInvariant(states, steps, k);
      if s.threads[u].Waking? {
        next, pending := Then(s, FutexWake(u, t), t);
        u := t;
        return;
      }
    } else if s.threads[t].Waiting? {
      next, pending := Then(s, FutexWait(t), t);
      return;
    }
    next, pending := [s, Take(s, LockExchange(u))], [LockExchange(u)];
  }

  /** After one step that leaves the lock free and thread `u` contending, `u` takes it. */
  lemma Then(s: State, a: Step, u: nat) returns (next: seq<State>, pending: seq<Step>)
    requires Enabled(s, a) && Take(s, a).value.Unlocked? && u < |s.threads| && Take(s, a).threads[u].Contending?
    ensures Path(next, pending) && pending == [a, LockExchange(u)] && next[0] == s && |next| == 3
    ensures HasLock(next[2], u)
  {
    var r := Take(s, a);
    next, pending := [s, r, Take(r, LockExchange(u))], [a, LockExchange(u)];
  }

  // ------------------------------------------------------------------ refinement

  /** The abstract lock: free or held by one thread. */
  datatype Lock = Free | HeldBy(t: nat)

  /** What step `a` may do to the lock: the acting thread takes it when it is free, or frees it
      or hands it over when it has it, or nothing changes. */
  predicate LockStep(x: Lock, a: Step, y: Lock) {
    || x == y
    || (x.Free? && y == HeldBy(a.t))
    || (x == HeldBy(a.t) && y.Free?)
    || (x == HeldBy(a.t) && a.HandOver? && y == HeldBy(a.heir))
  }

  ghost function HolderOf(s: State): (x: Lock)
    requires OneHolder(s)
    ensures x.HeldBy? ==> x.t < |s.threads| && s.threads[x.t].Holding?
    ensures x.Free? <==> s.value.Unlocked?
  {
    if s.value.Unlocked? then Free
    else
      var t :| 0 <= t < |s.threads| && s.threads[t].Holding?;
      HeldBy(t)
  }

  /** Every step is a step of the abstract lock; a try and either step of locking take the lock
      exactly when it is free, an unlock frees it, and a wait that times out ends the call without
      the lock. */
  lemma Refines(s: State, a: Step)
    requires Enabled(s, a) && OneHolder(s)
    ensures OneHolder(Take(s, a)) && LockStep(HolderOf(s), a, HolderOf(Take(s, a)))
    ensures a.TryLock? || a.LockFirst? || a.LockExchange? ==>
              (Take(s, a).threads[a.t].Holding? <==> HolderOf(s).Free?)
    ensures a.WaitEnds? && a.how.TimedOut? ==>
              Take(s, a).threads[a.t].Idle? && Take(s, a).value == s.value && HolderOf(Take(s, a)) == HolderOf(s)
              && HolderOf(s) != HeldBy(a.t)
    ensures a.UnlockExchange? ==> HolderOf(s) == HeldBy(a.t) && HolderOf(Take(s, a)).Free?
  {
    StepKeepsOneHolder(s, a);
    var r := Take(s, a);
    if HolderOf(s).HeldBy? {
      var h := HolderOf(s).t;
      assert r.threads[h] == s.threads[h] || h == a.t;
    }
  }
}
