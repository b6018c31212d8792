/** The readers-writer lock over two mutexes as a step system. The mutexes are abstract: a lock
    step waits until the mutex is free, a try step never waits. */
module ReaderWriterLock {

  /** Where a thread is: outside (Idle), inside (Reading, Writing), or between two steps. */
  datatype Place =
    | Idle
    | Reading
    | Writing
    // read_lock
    | LockEntered        // holds `reader`, about to count itself
    | LockFirst          // holds `reader`, counted as the first, waiting for `global`
    | LockDone           // holds `reader`, counted, about to release `reader`
    // read_trylock
    | TryEntered         // holds `reader`, about to count itself
    | TryFirst           // holds `reader`, counted as the first, about to try `global`
    | TryFailed          // holds `reader`, about to take its count back
    | TryLeaving         // holds `reader`, not counted, about to release `reader`
    // read_unlock
    | UnlockEntering     // waiting for `reader`
    | UnlockEntered      // holds `reader`, about to take its count off
    | UnlockLast         // holds `reader`, was the last, about to release `global`
    | UnlockDone         // holds `reader`, about to release it

  datatype State = State(block: nat, reader: bool, global: bool, threads: seq<Place>)

  const UNSIGNED_RANGE: nat := 0x1_0000_0000

  /** The steps of the public operations; each names the acting thread. */
  datatype Step =
    | ReadLock(t: nat)            // reader.lock() of read_lock
    | CountUp(t: nat)             // ++block, and the test, of read_lock and read_trylock
    | LockGlobal(t: nat)          // global.lock() of read_lock
    | ReleaseReader(t: nat)       // reader.unlock() of all three
    | ReadTryLock(t: nat)         // reader.trylock()
    | TryGlobal(t: nat)           // global.trylock() of read_trylock
    | CountBack(t: nat)           // block-- of read_trylock
    | ReadUnlock(t: nat)          // the call of read_unlock
    | UnlockEnter(t: nat)         // reader.lock() of read_unlock
    | CountDown(t: nat)           // --block, and the test
    | ReleaseGlobal(t: nat)       // global.unlock() of read_unlock
    | WriteLock(t: nat)
    | WriteTryLock(t: nat)
    | WriteUnlock(t: nat)

  predicate Enabled(s: State, a: Step) {
    && a.t < |s.threads|
    && var p := s.threads[a.t];
       match a
       case ReadLock(_) => p.Idle? && !s.reader
       case CountUp(_) => p.LockEntered? || p.TryEntered?
       case LockGlobal(_) => p.LockFirst? && !s.global
       case ReleaseReader(_) => p.LockDone? || p.TryLeaving? || p.UnlockDone?
       case ReadTryLock(_) => p.Idle?
       case TryGlobal(_) => p.TryFirst?
       case CountBack(_) => p.TryFailed?
       case ReadUnlock(_) => p.Reading?
       case UnlockEnter(_) => p.UnlockEntering? && !s.reader
       case CountDown(_) => p.UnlockEntered?
       case ReleaseGlobal(_) => p.UnlockLast?
       case WriteLock(_) => p.Idle? && !s.global
       case WriteTryLock(_) => p.Idle?
       case WriteUnlock(_) => p.Writing?
  }

  function Put(s: State, t: nat, p: Place): (r: State)
    requires t < |s.threads|
    ensures |r.threads| == |s.threads|
  {
    s.(threads := s.threads[t := p])
  }

  /** The state after a step. The counter wraps like an unsigned int. */
  function Take(s: State, a: Step): (r: State)
    requires Enabled(s, a)
    ensures |r.threads| == |s.threads|
  {
    var t := a.t;
    match a
    case ReadLock(_) => Put(s, t, LockEntered).(reader := true)
    case CountUp(_) =>
      var b := (s.block + 1) % UNSIGNED_RANGE;
      Put(s, t, if s.threads[t].LockEntered? then (if b == 1 then LockFirst else LockDone)
          else (if b == 1 then TryFirst else LockDone)).(block := b)
    case LockGlobal(_) => Put(s, t, LockDone).(global := true)
    case ReleaseReader(_) => Put(s, t, if s.threads[t].LockDone? then Reading else Idle).(reader := false)
    case ReadTryLock(_) => if s.reader then s else Put(s, t, TryEntered).(reader := true)
    case TryGlobal(_) => if s.global then Put(s, t, TryFailed) else Put(s, t, LockDone).(global := true)
    case CountBack(_) => Put(s, t, TryLeaving).(block := (s.block + UNSIGNED_RANGE - 1) % UNSIGNED_RANGE)
    case ReadUnlock(_) => Put(s, t, UnlockEntering)
    case UnlockEnter(_) => Put(s, t, UnlockEntered).(reader := true)
    case CountDown(_) =>
      var b := (s.block + UNSIGNED_RANGE - 1) % UNSIGNED_RANGE;
      Put(s, t, if b == 0 then UnlockLast else UnlockDone).(block := b)
    case ReleaseGlobal(_) => Put(s, t, UnlockDone).(global := false)
    case WriteLock(_) => Put(s, t, Writing).(global := true)
    case WriteTryLock(_) => if s.global then s else Put(s, t, Writing).(global := true)
    case WriteUnlock(_) => Put(s, t, Idle).(global := false)
  }

  ghost predicate Initial(s: State) {
    && s.block == 0 && !s.reader && !s.global && |s.threads| < UNSIGNED_RANGE
    && forall t :: 0 <= t < |s.threads| ==> s.threads[t].Idle?
  }

  ghost predicate Run(states: seq<State>, steps: seq<Step>) {
    && |states| == |steps| + 1 && Initial(states[0])
    && forall k :: 0 <= k < |steps| ==> Enabled(states[k], steps[k]) && states[k + 1] == Take(states[k], steps[k])
  }

  // ------------------------------------------------------------------ the invariant

  /** Threads that hold the `reader` mutex. */
  predicate HasReader(p: Place) {
    !p.Idle? && !p.Reading? && !p.Writing? && !p.UnlockEntering?
  }

  /** Threads counted in `block`. */
  predicate Counted(p: Place) {
    p.Reading? || p.LockFirst? || p.LockDone? || p.TryFirst? || p.TryFailed? || p.UnlockEntering? || p.UnlockEntered?
  }

  /** Threads that read under the lock or are about to start or stop. */
  predicate Active(p: Place) { p.Reading? || p.LockDone? || p.UnlockEntering? || p.UnlockEntered? }

  /** Threads that have counted themselves as the first but do not have `global`, or no longer
      expect to get it: until they go on, `block` is positive without it. */
  predicate Changing(p: Place) { p.LockFirst? || p.TryFirst? || p.TryFailed? }

  /** How many threads are counted. */
  function CountedIn(threads: seq<Place>): nat {
    if threads == [] then 0
    else CountedIn(threads[..|threads| - 1]) + if Counted(threads[|threads| - 1]) then 1 else 0
  }

  ghost predicate ReaderFits(s: State) {
    && (forall t, u ::
           0 <= t < |s.threads| && 0 <= u < |s.threads| && HasReader(s.threads[t]) && HasReader(s.threads[u]) ==>
               t == u)
    && (s.reader <==> exists t :: 0 <= t < |s.threads| && HasReader(s.threads[t]))
  }

  ghost predicate BlockFits(s: State) { s.block == CountedIn(s.threads) && |s.threads| < UNSIGNED_RANGE }

  /** The readers as a group hold `global`. */
  ghost predicate ReadersHold(s: State) {
    (s.block > 0 && !(exists t :: 0 <= t < |s.threads| && Changing(s.threads[t])))
    || exists t :: 0 <= t < |s.threads| && s.threads[t].UnlockLast?
  }

  ghost predicate WriterIn(s: State) { exists t :: 0 <= t < |s.threads| && s.threads[t].Writing? }

  ghost predicate GlobalFits(s: State) {
    && (forall t, u ::
           0 <= t < |s.threads| && 0 <= u < |s.threads| && s.threads[t].Writing? && s.threads[u].Writing? ==> t == u)
    && (s.global <==> ReadersHold(s) || WriterIn(s))
    && !(ReadersHold(s) && WriterIn(s))
    && (forall t :: 0 <= t < |s.threads| && Changing(s.threads[t]) ==> s.block == 1)
    && (forall t :: 0 <= t < |s.threads| && s.threads[t].UnlockLast? ==> s.block == 0)
  }

  ghost predicate Invariant(s: State) { ReaderFits(s) && BlockFits(s) && GlobalFits(s) }

  /** A thread takes `reader` only when it is free, and frees it when it leaves. */
  lemma ReaderChange(s: State, a: Step)
    requires Enabled(s, a)
    ensures var p, r := s.threads[a.t], Take(s, a);
            var q := r.threads[a.t];
            if HasReader(p) == HasReader(q) then r.reader == s.reader
            else if HasReader(q) then !s.reader && r.reader
            else !r.reader
  {
  }

  lemma StepReader(s: State, a: Step)
    requires Enabled(s, a) && ReaderFits(s)
    ensures ReaderFits(Take(s, a))
  {
    ReaderChange(s, a);
    OneThread(s, a);
    var r := Take(s, a);
    hide Take, Enabled, HasReader;
    assert forall u :: 0 <= u < |s.threads| && u != a.t ==> r.threads[u] == s.threads[u];
    if HasReader(r.threads[a.t]) {
      assert r.reader;
    } else if HasReader(s.threads[a.t]) {
      assert forall u :: 0 <= u < |s.threads| ==> !HasReader(r.threads[u]);
    } else {
      assert forall u :: 0 <= u < |s.threads| ==> (HasReader(r.threads[u]) <==> HasReader(s.threads[u]));
    }
  }

  lemma {:induction false} CountPut(threads: seq<Place>, t: nat, p: Place)
    requires t < |threads|
    ensures CountedIn(threads[t := p]) ==
              CountedIn(threads) + (if Counted(p) then 1 else 0) - (if Counted(threads[t]) then 1 else 0)
    decreases |threads|
  {
    var n, put := |threads| - 1, threads[t := p];
    if t == n {
      assert put[..n] == threads[..n];
    } else {
      assert put[..n] == threads[..n][t := p];
      CountPut(threads[..n], t, p);
    }
  }

  lemma {:induction false} CountBound(threads: seq<Place>, t: nat)
    requires t < |threads|
    ensures CountedIn(threads) <= |threads|
    ensures Counted(threads[t]) ==> CountedIn(threads) > 0
    ensures !Counted(threads[t]) ==> CountedIn(threads) < |threads|
    decreases |threads|
  {
    var n := |threads| - 1;
    if n > 0 {
      CountBound(threads[..n], if t < n then t else 0);
    }
  }

  /** The counter follows the threads that have counted themselves, and never wraps. */
  lemma StepBlock(s: State, a: Step)
    requires Enabled(s, a) && BlockFits(s)
    ensures BlockFits(Take(s, a))
    ensures Take(s, a).block == if a.CountUp? then s.block + 1 else if a.CountDown? || a.CountBack? then s.block - 1
        else s.block
  {
    CountPut(s.threads, a.t, Take(s, a).threads[a.t]);
    CountBound(s.threads, a.t);
    OneThread(s, a);
    hide CountedIn;
  }

  /** A step changes the place of its own thread only. */
  lemma OneThread(s: State, a: Step)
    requires Enabled(s, a)
    ensures Take(s, a).threads == s.threads[a.t := Take(s, a).threads[a.t]]
  {
  }

  /** With `reader` held by `t`, only `t` decides whether the readers hold `global`. */
  lemma Solo(s: State, r: State, t: nat)
    requires ReaderFits(s) && t < |s.threads| == |r.threads| && HasReader(s.threads[t])
    requires r.threads == s.threads[t := r.threads[t]]
    ensures ReadersHold(s) <==> (s.block > 0 && !Changing(s.threads[t])) || s.threads[t].UnlockLast?
    ensures ReadersHold(r) <==> (r.block > 0 && !Changing(r.threads[t])) || r.threads[t].UnlockLast?
    ensures forall u :: 0 <= u < |s.threads| && u != t ==> !Changing(r.threads[u]) && !r.threads[u].UnlockLast?
  {
    assert forall u :: 0 <= u < |s.threads| && u != t ==> r.threads[u] == s.threads[u] && !HasReader(s.threads[u]);
  }

  /** Places that do not matter for `global`. */
  lemma Quiet(s: State, r: State, t: nat)
    requires t < |s.threads| == |r.threads| && r.threads == s.threads[t := r.threads[t]] && r.block == s.block
    requires !Changing(s.threads[t]) && !Changing(r.threads[t]) && !s.threads[t].UnlockLast?
        && !r.threads[t].UnlockLast?
    ensures ReadersHold(r) <==> ReadersHold(s)
    ensures forall u :: 0 <= u < |s.threads| && u != t ==> r.threads[u] == s.threads[u]
  {
    assert forall u :: 0 <= u < |s.threads| && u != t ==> r.threads[u] == s.threads[u];
  }

  lemma Writers(s: State, r: State, t: nat)
    requires t < |s.threads| == |r.threads| && r.threads == s.threads[t := r.threads[t]] && GlobalFits(s)
    ensures s.threads[t].Writing? == r.threads[t].Writing? ==> (WriterIn(r) <==> WriterIn(s))
    ensures r.threads[t].Writing? ==> WriterIn(r)
    ensures s.threads[t].Writing? ==> WriterIn(s)
    ensures s.threads[t].Writing? && !r.threads[t].Writing? ==> !WriterIn(r)
  {
    assert forall u :: 0 <= u < |s.threads| && u != t ==> r.threads[u] == s.threads[u];
  }

  /** `global` fits for the threads in `s` apart from the acting one. */
  ghost predicate GlobalFor(global: bool, readers: bool, writer: bool, block: nat, p: Place) {
    && (global <==> readers || writer) && !(readers && writer)
    && (Changing(p) ==> block == 1) && (p.UnlockLast? ==> block == 0)
  }

  /** What a step does to `global`, given who has it before. */
  lemma GlobalChange(s: State, a: Step, w: bool, w': bool)
    requires Enabled(s, a)
    requires var p, q := s.threads[a.t], Take(s, a).threads[a.t];
             && (p.Writing? == q.Writing? ==> w' == w) && (q.Writing? ==> w') && (p.Writing? ==> w)
                 && (p.Writing? && !q.Writing? ==> !w')
    requires HasReader(s.threads[a.t])
    requires GlobalFor(s.global, (s.block > 0 && !Changing(s.threads[a.t])) || s.threads[a.t].UnlockLast?, w, s.block,
        s.threads[a.t])
    requires Take(s, a).block == if a.CountUp? then s.block + 1 else if a.CountDown? || a.CountBack? then s.block - 1
        else s.block
    requires Counted(s.threads[a.t]) ==> s.block > 0
    ensures var r := Take(s, a);
            GlobalFor(r.global, (r.block > 0 && !Changing(r.threads[a.t])) || r.threads[a.t].UnlockLast?, w', r.block,
                r.threads[a.t])
  {
  }

  /** The same for the steps of threads without `reader`. */
  lemma GlobalKept(s: State, a: Step, readers: bool, w: bool, w': bool)
    requires Enabled(s, a)
    requires var p, q := s.threads[a.t], Take(s, a).threads[a.t];
             && (p.Writing? == q.Writing? ==> w' == w) && (q.Writing? ==> w') && (p.Writing? ==> w)
                 && (p.Writing? && !q.Writing? ==> !w')
    requires !HasReader(s.threads[a.t])
    requires GlobalFor(s.global, readers, w, s.block, s.threads[a.t])
    ensures var r := Take(s, a);
            && r.block == s.block && !Changing(r.threads[a.t]) && !r.threads[a.t].UnlockLast?
            && GlobalFor(r.global, readers, w', r.block, r.threads[a.t])
            && (r.threads[a.t].Writing? && !s.threads[a.t].Writing? ==> !s.global)
  {
  }

  lemma StepGlobal(s: State, a: Step)
    requires Enabled(s, a) && Invariant(s)
    ensures GlobalFits(Take(s, a))
  {
    var r, t := Take(s, a), a.t;
    StepBlock(s, a);
    OneThread(s, a);
    Writers(s, r, t);
    CountBound(s.threads, t);
    hide CountedIn, ReaderFits, WriterIn, ReadersHold, Take, Enabled;
    if HasReader(s.threads[t]) {
      Solo(s, r, t);
      GlobalChange(s, a, WriterIn(s), WriterIn(r));
    } else {
      GlobalKept(s, a, ReadersHold(s), WriterIn(s), WriterIn(r));
      Quiet(s, r, t);
    }
    WriterStarts(s, a);
    assert forall u :: 0 <= u < |s.threads| && u != t ==> r.threads[u] == s.threads[u];
    OneWriter(s, r, t);
  }

  lemma WriterStarts(s: State, a: Step)
    requires Enabled(s, a)
    ensures Take(s, a).threads[a.t].Writing? ==> !s.global
  {
  }

  lemma OneWriter(s: State, r: State, t: nat)
    requires t < |s.threads| == |r.threads| && r.threads == s.threads[t := r.threads[t]]
    requires forall t, u ::
        0 <= t < |s.threads| && 0 <= u < |s.threads| && s.threads[t].Writing? && s.threads[u].Writing? ==> t == u
    requires r.threads[t].Writing? ==> !WriterIn(s)
    ensures forall t, u ::
        0 <= t < |r.threads| && 0 <= u < |r.threads| && r.threads[t].Writing? && r.threads[u].Writing? ==> t == u
  {
    assert forall u :: 0 <= u < |s.threads| && u != t ==> r.threads[u] == s.threads[u];
  }

  lemma StepInvariant(s: State, a: Step)
    requires Enabled(s, a) && Invariant(s)
    ensures Invariant(Take(s, a))
  {
    hide Take, ReaderFits, BlockFits, GlobalFits, Enabled;
    StepReader(s, a);
    StepBlock(s, a);
    StepGlobal(s, a);
  }

  lemma InitialInvariant(s: State)
    requires Initial(s)
    ensures Invariant(s)
  {
    NoneCounted(s.threads);
  }

  lemma {:induction false} NoneCounted(threads: seq<Place>)
    requires forall t :: 0 <= t < |threads| ==> threads[t].Idle?
    ensures CountedIn(threads) == 0
    decreases |threads|
  {
    if threads != [] { NoneCounted(threads[..|threads| - 1]); }
  }

  lemma {:induction false} RunInvariant(states: seq<State>, steps: seq<Step>, k: nat)
    requires Run(states, steps) && k < |states|
    ensures Invariant(states[k])
    decreases k
  {
    hide Invariant, Initial, Enabled, Take;
    if k == 0 {
      InitialInvariant(states[0]);
    } else {
      RunInvariant(states, steps, k - 1);
      StepInvariant(states[k - 1], steps[k - 1]);
    }
  }

  // ------------------------------------------------------------------ what it guarantees

  /** A writer excludes all readers and all other writers. */
  lemma Exclusion(states: seq<State>, steps: seq<Step>, k: nat, t: nat, u: nat)
    requires Run(states, steps) && k < |states| && t < |states[k].threads| && u < |states[k].threads|
    requires states[k].threads[t].Writing?
    ensures states[k].threads[u].Writing? ==> t == u
    ensures !states[k].threads[u].Reading? && !Active(states[k].threads[u])
  {
    RunInvariant(states, steps, k);
    var s := states[k];
    assert WriterIn(s);
    if Active(s.threads[u]) {
      CountBound(s.threads, u);
      var c :| 0 <= c < |s.threads| && Changing(s.threads[c]);
      TwoCounted(s.threads, u, c);
    }
  }

  lemma TwoCounted(threads: seq<Place>, t: nat, u: nat)
    requires t < |threads| && u < |threads| && t != u && Counted(threads[t]) && Counted(threads[u])
    ensures CountedIn(threads) >= 2
  {
    CountPut(threads, t, Idle);
    CountBound(threads[t := Idle], u);
  }

  /** While no thread holds `reader`, `block` is the number of active readers. If it is positive,
      `global` is taken and no writer has it, so the readers do; if not, `global` is taken exactly
      by a writer. */
  lemma BlockCounts(states: seq<State>, steps: seq<Step>, k: nat)
    requires Run(states, steps) && k < |states| && !states[k].reader
    ensures var s := states[k];
            && s.block == ActiveIn(s.threads)
            && (s.block > 0 ==> s.global && !WriterIn(s))
            && (s.block == 0 ==> (s.global <==> WriterIn(s)))
  {
    RunInvariant(states, steps, k);
    ActiveCounted(states[k].threads);
  }

  function ActiveIn(threads: seq<Place>): nat {
    if threads == [] then 0
    else ActiveIn(threads[..|threads| - 1]) + if Active(threads[|threads| - 1]) then 1 else 0
  }

  lemma {:induction false} ActiveCounted(threads: seq<Place>)
    requires forall t :: 0 <= t < |threads| ==> !HasReader(threads[t])
    ensures ActiveIn(threads) == CountedIn(threads)
    decreases |threads|
  {
    if threads != [] { ActiveCounted(threads[..|threads| - 1]); }
  }

  /** A thread that waits for `global` while it holds `reader` waits for a writer. */
  lemma WaitsForWriter(states: seq<State>, steps: seq<Step>, k: nat, t: nat) returns (w: nat)
    requires Run(states, steps) && k < |states| && t < |states[k].threads|
    requires states[k].threads[t].LockFirst? && states[k].global
    ensures w < |states[k].threads| && states[k].threads[w].Writing?
  {
    RunInvariant(states, steps, k);
    var s := states[k];
    Solo(s, s, t);
    assert WriterIn(s);
    w :| 0 <= w < |s.threads| && s.threads[w].Writing?;
  }

  /** Whether thread `t` can go on, taking for granted that a reader or writer ends at last. */
  ghost predicate CanStep(s: State, t: nat) {
    exists a :: Enabled(s, a) && a.t == t && Take(s, a) != s
  }

  /** No deadlock: as long as some thread is inside the lock or in the middle of an operation,
      one of these threads can take a step. */
  lemma NoDeadlock(states: seq<State>, steps: seq<Step>, k: nat, t: nat) returns (u: nat)
    requires Run(states, steps) && k < |states| && t < |states[k].threads| && !states[k].threads[t].Idle?
    ensures u < |states[k].threads| && !states[k].threads[u].Idle? && CanStep(states[k], u)
  {
    RunInvariant(states, steps, k);
    var s := states[k];
    u := t;
    if s.threads[t].UnlockEntering? && s.reader {
      u :| 0 <= u < |s.threads| && HasReader(s.threads[u]);
    }
    if s.threads[u].LockFirst? && s.global {
      u := WaitsForWriter(states, steps, k, u);
    }
    Progress(s, u);
  }

  lemma Progress(s: State, u: nat)
    requires u < |s.threads| && !s.threads[u].Idle?
    requires s.threads[u].UnlockEntering? ==> !s.reader
    requires s.threads[u].LockFirst? ==> !s.global
    ensures CanStep(s, u)
  {
    var a := match s.threads[u]
      case Reading => ReadUnlock(u)
      case Writing => WriteUnlock(u)
      case LockFirst => LockGlobal(u)
      case TryFirst => TryGlobal(u)
      case TryFailed => CountBack(u)
      case UnlockEntering => UnlockEnter(u)
      case UnlockEntered => CountDown(u)
      case UnlockLast => ReleaseGlobal(u)
      case LockEntered => CountUp(u)
      case TryEntered => CountUp(u)
      case _ => ReleaseReader(u);
    assert Enabled(s, a);
    assert Take(s, a).threads[u] != s.threads[u];
  }
}
