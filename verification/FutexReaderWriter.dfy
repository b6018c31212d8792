/** The readers-writer lock run on two futex mutexes, in one step system: every atomic operation,
    every futex call and every access to the counter is one step. It refines the lock over
    abstract mutexes, and no deadlock arises from threads that sleep. */
module FutexReaderWriter {
  import F = FutexMutex
  import R = ReaderWriterLock

  /** In both mutexes the thread behind the last one stands for the readers as a group, which has
      `global` from the first reader to the last. */
  datatype State = State(block: nat, reader: F.State, global: F.State, places: seq<R.Place>)

  datatype Step =
    | OnReader(a: F.Step)    // a step of an operation on `reader`
    | OnGlobal(a: F.Step)    // a step of an operation on `global`
    | Local(b: R.Step)       // an access to the counter, or the call of read_unlock

  ghost function Actor(x: Step): nat {
    match x
    case OnReader(a) => a.t
    case OnGlobal(a) => a.t
    case Local(b) => b.t
  }

  /** The state that the lock over abstract mutexes is in. */
  ghost function Abs(s: State): R.State {
    R.State(s.block, !s.reader.value.Unlocked?, !s.global.value.Unlocked?, s.places)
  }

  predicate Sized(s: State) { |s.reader.threads| == |s.global.threads| == |s.places| + 1 }

  /** Not in the middle of an operation on this mutex. */
  predicate Quiet(p: F.Place) { p.Idle? || p.Holding? }

  /** The calls that the code makes on `reader` at place `p`; waiting has no timeout. */
  predicate ReaderCall(p: R.Place, a: F.Step) {
    match a
    case LockFirst(_) => p.Idle? || p.UnlockEntering?
    case LockExchange(_) => true
    case FutexWait(_) => true
    case WaitEnds(_, how) => how.Interrupted?
    case TryLock(_) => p.Idle?
    case UnlockExchange(_) => p.LockDone? || p.TryLeaving? || p.UnlockDone?
    case FutexWake(_, _) => true
    case HandOver(_, _) => false
  }

  /** The calls on `global`. */
  predicate GlobalCall(p: R.Place, a: F.Step) {
    match a
    case LockFirst(_) => p.Idle? || p.LockFirst?
    case LockExchange(_) => true
    case FutexWait(_) => true
    case WaitEnds(_, how) => how.Interrupted?
    case TryLock(_) => p.Idle? || p.TryFirst?
    case UnlockExchange(_) => p.Writing? || p.UnlockLast?
    case FutexWake(_, _) => true
    case HandOver(_, _) => false
  }

  /** The mutex `global` just before a step on it: the last reader unlocks what the group has. */
  ghost function Lent(s: State, a: F.Step): F.State
    requires Sized(s) && a.t < |s.places|
  {
    var h := F.HandOver(|s.places|, a.t);
    if a.UnlockExchange? && s.places[a.t].UnlockLast? && F.Enabled(s.global, h) then F.Take(s.global, h) else s.global
  }

  /** ... and after it: the first reader leaves what it has locked to the group. */
  ghost function Settled(s: State, a: F.Step): F.State
    requires Sized(s) && a.t < |s.places| && F.Enabled(Lent(s, a), a)
  {
    var g := F.Take(Lent(s, a), a);
    var h := F.HandOver(a.t, |s.places|);
    if (s.places[a.t].LockFirst? || s.places[a.t].TryFirst?) && F.Enabled(g, h) then F.Take(g, h) else g
  }

  datatype Act = Nothing | Does(b: R.Step)

  /** What having locked `reader`, or `global`, means at place `p`. */
  function Entered(p: R.Place, t: nat): R.Step { if p.Idle? then R.ReadLock(t) else R.UnlockEnter(t) }
  function Acquired(p: R.Place, t: nat): R.Step { if p.Idle? then R.WriteLock(t) else R.LockGlobal(t) }

  /** The step of the abstract lock that a step brings about. */
  ghost function ActOf(s: State, x: Step): Act
    requires Sized(s) && Actor(x) < |s.places|
  {
    var t, p := Actor(x), s.places[Actor(x)];
    match x
    case OnReader(a) =>
      (match a
       case TryLock(_) => Does(R.ReadTryLock(t))
       case UnlockExchange(_) => Does(R.ReleaseReader(t))
       case LockFirst(_) => if s.reader.value.Unlocked? then Does(Entered(p, t)) else Nothing
       case LockExchange(_) => if s.reader.value.Unlocked? then Does(Entered(p, t)) else Nothing
       case _ => Nothing)
    case OnGlobal(a) =>
      (match a
       case TryLock(_) => Does(if p.Idle? then R.WriteTryLock(t) else R.TryGlobal(t))
       case UnlockExchange(_) => Does(if p.Writing? then R.WriteUnlock(t) else R.ReleaseGlobal(t))
       case LockFirst(_) => if s.global.value.Unlocked? then Does(Acquired(p, t)) else Nothing
       case LockExchange(_) => if s.global.value.Unlocked? then Does(Acquired(p, t)) else Nothing
       case _ => Nothing)
    case Local(b) => Does(b)
  }

  /** Whether a thread may take a step: it is in the middle of no other operation, and the code
      makes this call at its place. */
  ghost predicate Possible(s: State, x: Step) {
    && Sized(s) && Actor(x) < |s.places|
    && (match x
        case OnReader(a) =>
          Quiet(s.global.threads[a.t]) && F.Enabled(s.reader, a) && ReaderCall(s.places[a.t], a)
        case OnGlobal(a) =>
          Quiet(s.reader.threads[a.t]) && F.Enabled(Lent(s, a), a) && GlobalCall(s.places[a.t], a)
        case Local(b) =>
          && Quiet(s.reader.threads[b.t]) && Quiet(s.global.threads[b.t])
          && (b.CountUp? || b.CountBack? || b.CountDown? || b.ReadUnlock?) && R.Enabled(Abs(s), b))
  }

  /** The same, with the step of the abstract lock possible too, which it always is. */
  ghost predicate Enabled(s: State, x: Step) {
    && Possible(s, x)
    && (ActOf(s, x).Does? ==> R.Enabled(Abs(s), ActOf(s, x).b))
  }

  /** The abstract state that follows. */
  ghost function Next(s: State, x: Step): (r: R.State)
    requires Enabled(s, x)
    ensures |r.threads| == |s.places|
  {
    if ActOf(s, x).Does? then R.Take(Abs(s), ActOf(s, x).b) else Abs(s)
  }

  ghost function Take(s: State, x: Step): (r: State)
    requires Enabled(s, x)
    ensures Sized(r) && |r.places| == |s.places|
  {
    var n := Next(s, x);
    match x
    case OnReader(a) => State(n.block, F.Take(s.reader, a), s.global, n.threads)
    case OnGlobal(a) => State(n.block, s.reader, Settled(s, a), n.threads)
    case Local(_) => State(n.block, s.reader, s.global, n.threads)
  }

  ghost predicate Initial(s: State) {
    Sized(s) && F.Initial(s.reader) && F.Initial(s.global) && R.Initial(Abs(s))
  }

  ghost predicate Run(states: seq<State>, steps: seq<Step>) {
    && |states| == |steps| + 1 && Initial(states[0])
    && forall k :: 0 <= k < |steps| ==> Enabled(states[k], steps[k]) && states[k + 1] == Take(states[k], steps[k])
  }

  // ------------------------------------------------------------------ the invariant

  /** How the place of a thread in the code goes with its places in the two mutexes. */
  predicate Linked(p: R.Place, r: F.Place, g: F.Place) {
    && (r.Holding? <==> R.HasReader(p)) && (F.Wants(r) ==> p.Idle? || p.UnlockEntering?)
    && (g.Holding? <==> p.Writing?) && (F.Wants(g) ==> p.Idle? || p.LockFirst?)
    && (Quiet(r) || Quiet(g))
  }

  ghost predicate AllLinked(s: State)
    requires Sized(s)
  {
    && (forall t :: 0 <= t < |s.places| ==> Linked(s.places[t], s.reader.threads[t], s.global.threads[t]))
    && s.reader.threads[|s.places|].Idle? && Quiet(s.global.threads[|s.places|])
  }

  ghost predicate Invariant(s: State) {
    Sized(s) && F.Invariant(s.reader) && F.Invariant(s.global) && R.Invariant(Abs(s)) && AllLinked(s)
  }

  /** What a step of a mutex does to its variable and to other threads. */
  lemma MutexStep(m: F.State, a: F.Step)
    requires F.Enabled(m, a) && !a.HandOver? && !(a.WaitEnds? && a.how.TimedOut?)
    ensures var r := F.Take(m, a);
            && (forall u :: 0 <= u < |m.threads| && u != a.t ==>
                  r.threads[u] == m.threads[u] || (m.threads[u].Sleeping? && r.threads[u].Contending?))
            && (r.value.Unlocked? <==> a.UnlockExchange? || (m.value.Unlocked? && !r.threads[a.t].Holding?))
            && (r.threads[a.t].Holding? ==> m.value.Unlocked?)
            && (match a
                case LockFirst(t) => if m.value.Unlocked? then r.threads[t].Holding? else F.Wants(r.threads[t])
                case LockExchange(t) => if m.value.Unlocked? then r.threads[t].Holding? else F.Wants(r.threads[t])
                case TryLock(t) => if m.value.Unlocked? then r.threads[t].Holding? else r == m
                case UnlockExchange(t) => r.threads[t].Idle? || r.threads[t].Waking?
                case FutexWake(t, _) => r.threads[t].Idle?
                case _ => F.Wants(r.threads[a.t]))
  {
  }

  lemma LinkedAt(s: State, t: nat)
    requires Invariant(s) && t < |s.places|
    ensures Linked(s.places[t], s.reader.threads[t], s.global.threads[t])
    ensures s.reader.threads[|s.places|].Idle? && Quiet(s.global.threads[|s.places|])
  {
  }

  /** The abstract lock never stands in the way of a step. */
  lemma AlwaysEnabled(s: State, x: Step)
    requires Invariant(s) && Possible(s, x)
    ensures Enabled(s, x)
  {
    InvariantParts(s);
    LinkedAt(s, Actor(x));
    hide F.Invariant, R.Invariant, AllLinked, Invariant, F.Take;
    match x
    case OnReader(a) =>
    case OnGlobal(a) =>
    case Local(b) =>
  }

  /** What the abstract steps on `reader` do. */
  lemma ReaderEffect(s: R.State, b: R.Step)
    requires R.Enabled(s, b) && (b.ReadLock? || b.UnlockEnter? || b.ReadTryLock? || b.ReleaseReader?)
    ensures var r, p := R.Take(s, b), s.threads[b.t];
            && r.global == s.global && forall u :: 0 <= u < |s.threads| && u != b.t ==> r.threads[u] == s.threads[u]
    ensures var r, p := R.Take(s, b), s.threads[b.t];
            var q := r.threads[b.t];
            match b
            case ReadTryLock(_) => p.Idle? && if s.reader then r == s else r.reader && q.TryEntered?
            case ReadLock(_) => p.Idle? && r.reader && q.LockEntered?
            case UnlockEnter(_) => p.UnlockEntering? && r.reader && q.UnlockEntered?
            case _ => R.HasReader(p) && !r.reader && (q.Reading? || q.Idle?)
  {
  }

  /** What the acting thread does on `reader`, and what the lock then does. */
  lemma ReaderAct(s: State, a: F.Step)
    requires Invariant(s) && Enabled(s, OnReader(a))
    ensures var n, m := Next(s, OnReader(a)), F.Take(s.reader, a);
            && n.reader == !m.value.Unlocked? && n.global == !s.global.value.Unlocked?
            && (forall u :: 0 <= u < |s.places| && u != a.t ==> n.threads[u] == s.places[u])
            && Linked(n.threads[a.t], m.threads[a.t], s.global.threads[a.t])
  {
    hide F.Take, F.Invariant, R.Invariant, R.Take, R.Enabled, AllLinked, Invariant;
    LinkedAt(s, a.t);
    MutexStep(s.reader, a);
    if ActOf(s, OnReader(a)).Does? {
      ReaderEffect(Abs(s), ActOf(s, OnReader(a)).b);
    }
  }

  /** What handing over does. */
  lemma HandedOver(m: F.State, t: nat, u: nat)
    requires F.Enabled(m, F.HandOver(t, u))
    ensures var r := F.Take(m, F.HandOver(t, u));
            && t != u && r.value == m.value && r.threads[t].Idle? && r.threads[u].Holding?
            && (forall v :: 0 <= v < |m.threads| && v != t && v != u ==> r.threads[v] == m.threads[v])
            && (F.Invariant(m) ==> F.Invariant(r))
  {
    hide F.Invariant;
    if F.Invariant(m) { F.KeepInvariant(m, F.HandOver(t, u)); }
  }

  /** Before a step on `global` only the last reader gets what the group has. */
  lemma Lending(s: State, a: F.Step)
    requires Invariant(s) && Enabled(s, OnGlobal(a))
    ensures var m, n := Lent(s, a), |s.places|;
            && F.Invariant(m) && m.value == s.global.value && Quiet(m.threads[n]) && |m.threads| == n + 1
            && (forall u :: 0 <= u < n && u != a.t ==> m.threads[u] == s.global.threads[u])
            && (!a.UnlockExchange? ==> m == s.global) && (a.UnlockExchange? ==> m.threads[n].Idle?)
  {
    hide F.Take, F.Invariant, R.Invariant, R.Take, AllLinked, Invariant, Linked;
    InvariantParts(s);
    LinkedAt(s, a.t);
    var h := F.HandOver(|s.places|, a.t);
    if F.Enabled(s.global, h) { HandedOver(s.global, |s.places|, a.t); }
    if a.UnlockExchange? { OtherIdle(Lent(s, a), a.t, |s.places|); }
  }

  lemma InvariantParts(s: State)
    requires Invariant(s)
    ensures Sized(s) && F.Invariant(s.reader) && F.Invariant(s.global) && R.Invariant(Abs(s)) && AllLinked(s)
  {
  }

  /** Beside the holder, and when the lock is free, nobody holds it. */
  lemma OtherIdle(m: F.State, t: nat, u: nat)
    requires F.Invariant(m) && t < |m.threads| && u < |m.threads| && t != u && Quiet(m.threads[u])
    requires m.threads[t].Holding? || m.value.Unlocked?
    ensures m.threads[u].Idle?
  {
  }

  /** What a step on `global` does to it. */
  ghost predicate Stepped(s: State, a: F.Step, m: F.State)
    requires Sized(s) && a.t < |s.places|
  {
    var t, n, free := a.t, |s.places|, s.global.value.Unlocked?;
    var got := if s.places[t].Idle? then F.Holding else F.Idle;
    && |m.threads| == n + 1 && Quiet(m.threads[n])
    && (forall u :: 0 <= u < n && u != t ==>
          m.threads[u] == s.global.threads[u] || (s.global.threads[u].Sleeping? && m.threads[u].Contending?))
    && (m.value.Unlocked? <==> a.UnlockExchange? || (free && !a.LockFirst? && !a.LockExchange? && !a.TryLock?))
    && (match a
        case LockFirst(_) => if free then m.threads[t] == got else F.Wants(m.threads[t])
        case LockExchange(_) => if free then m.threads[t] == got else F.Wants(m.threads[t])
        case TryLock(_) => if free then m.threads[t] == got else m == s.global
        case UnlockExchange(_) => m.threads[t].Idle? || m.threads[t].Waking?
        case FutexWake(_, _) => m.threads[t].Idle?
        case _ => F.Wants(m.threads[t]))
  }

  lemma Settling(s: State, a: F.Step)
    requires Invariant(s) && Enabled(s, OnGlobal(a))
    ensures Stepped(s, a, Settled(s, a)) && F.Invariant(Settled(s, a))
  {
    hide F.Take, F.Invariant, R.Invariant, R.Take, AllLinked, Invariant;
    var n, l := |s.places|, Lent(s, a);
    Lending(s, a);
    LinkedAt(s, a.t);
    MutexStep(l, a);
    F.KeepInvariant(l, a);
    var g, h := F.Take(l, a), F.HandOver(a.t, |s.places|);
    if s.global.value.Unlocked? { OtherIdle(l, a.t, n); }
    if F.Enabled(g, h) { HandedOver(g, a.t, n); }
    hide Lent;
  }

  /** What the abstract steps on `global` do. */
  lemma GlobalEffect(s: R.State, b: R.Step)
    requires R.Enabled(s, b)
    requires b.WriteLock? || b.LockGlobal? || b.WriteTryLock? || b.TryGlobal? || b.WriteUnlock? || b.ReleaseGlobal?
    ensures var r := R.Take(s, b);
            && r.reader == s.reader && forall u :: 0 <= u < |s.threads| && u != b.t ==> r.threads[u] == s.threads[u]
    ensures var r, p := R.Take(s, b), s.threads[b.t];
            var q := r.threads[b.t];
            match b
            case WriteTryLock(_) => p.Idle? && if s.global then r == s else r.global && q.Writing?
            case TryGlobal(_) => p.TryFirst? && r.global && (q.TryFailed? || q.LockDone?)
            case WriteLock(_) => p.Idle? && r.global && q.Writing?
            case LockGlobal(_) => p.LockFirst? && r.global && q.LockDone?
            case WriteUnlock(_) => p.Writing? && !r.global && q.Idle?
            case _ => p.UnlockLast? && !r.global && q.UnlockDone?
  {
  }

  lemma GlobalAct(s: State, a: F.Step)
    requires Invariant(s) && Enabled(s, OnGlobal(a))
    ensures var n, m := Next(s, OnGlobal(a)), Settled(s, a);
            && n.global == !m.value.Unlocked? && n.reader == !s.reader.value.Unlocked?
            && (forall u :: 0 <= u < |s.places| && u != a.t ==> n.threads[u] == s.places[u])
            && Linked(n.threads[a.t], s.reader.threads[a.t], m.threads[a.t])
  {
    hide F.Take, F.Invariant, R.Invariant, R.Take, R.Enabled, AllLinked, Invariant, Settled;
    LinkedAt(s, a.t);
    Settling(s, a);
    Lending(s, a);
    hide Lent;
    if ActOf(s, OnGlobal(a)).Does? {
      GlobalEffect(Abs(s), ActOf(s, OnGlobal(a)).b);
    }
  }

  lemma LocalAct(s: State, b: R.Step)
    requires Invariant(s) && Enabled(s, Local(b))
    ensures var n := R.Take(Abs(s), b);
            && n.global == Abs(s).global && n.reader == Abs(s).reader
            && (forall u :: 0 <= u < |s.places| && u != b.t ==> n.threads[u] == s.places[u])
            && Linked(n.threads[b.t], s.reader.threads[b.t], s.global.threads[b.t])
  {
    LinkedAt(s, b.t);
    hide F.Invariant, R.Invariant, AllLinked, Invariant;
  }

  /** Every step is one of the lock over abstract mutexes, or changes nothing there. */
  lemma Refines(s: State, x: Step)
    requires Invariant(s) && Enabled(s, x)
    ensures Abs(Take(s, x)) == Next(s, x)
    ensures ActOf(s, x).Does? ==>
              R.Enabled(Abs(s), ActOf(s, x).b) && Abs(Take(s, x)) == R.Take(Abs(s), ActOf(s, x).b)
    ensures ActOf(s, x) == Nothing ==> Abs(Take(s, x)) == Abs(s)
  {
    hide F.Take, F.Invariant, R.Invariant, R.Take, R.Enabled, F.Enabled, AllLinked, Invariant, Linked, Settled, Lent;
    match x
    case OnReader(a) => ReaderAct(s, a);
    case OnGlobal(a) => GlobalAct(s, a);
    case Local(b) => LocalAct(s, b);
  }

  /** Every step keeps the invariants of both mutexes and of the lock. */
  lemma StepInvariant(s: State, x: Step)
    requires Invariant(s) && Enabled(s, x)
    ensures Invariant(Take(s, x))
  {
    hide F.Take, F.Invariant, R.Invariant, R.Take, R.Enabled, AllLinked;
    InvariantParts(s);
    Refines(s, x);
    if ActOf(s, x).Does? { R.StepInvariant(Abs(s), ActOf(s, x).b); }
    match x
    case OnReader(a) =>
      F.KeepInvariant(s.reader, a);
      ReaderLinks(s, a);
    case OnGlobal(a) =>
      Settling(s, a);
      GlobalLinks(s, a);
    case Local(b) =>
      LocalLinks(s, b);
  }

  lemma ReaderLinks(s: State, a: F.Step)
    requires Invariant(s) && Enabled(s, OnReader(a))
    ensures AllLinked(Take(s, OnReader(a)))
  {
    hide F.Take, F.Invariant, R.Invariant, R.Take, R.Enabled, ActOf, Next, Abs, Invariant, AllLinked;
    var r := Take(s, OnReader(a));
    ReaderAct(s, a);
    MutexStep(s.reader, a);
    forall t | 0 <= t < |s.places|
      ensures Linked(r.places[t], r.reader.threads[t], r.global.threads[t])
    {
      LinkedAt(s, t);
    }
    LinkedAt(s, a.t);
    LinksAll(r);
  }

  lemma LinksAll(r: State)
    requires Sized(r)
    requires forall t :: 0 <= t < |r.places| ==> Linked(r.places[t], r.reader.threads[t], r.global.threads[t])
    requires r.reader.threads[|r.places|].Idle? && Quiet(r.global.threads[|r.places|])
    ensures AllLinked(r)
  {
  }

  lemma GlobalLinks(s: State, a: F.Step)
    requires Invariant(s) && Enabled(s, OnGlobal(a))
    ensures AllLinked(Take(s, OnGlobal(a)))
  {
    hide F.Take, F.Invariant, R.Invariant, R.Take, R.Enabled, ActOf, Next, Abs, Invariant, AllLinked, Settled, Lent;
    var r := Take(s, OnGlobal(a));
    GlobalAct(s, a);
    Settling(s, a);
    forall t | 0 <= t < |s.places|
      ensures Linked(r.places[t], r.reader.threads[t], r.global.threads[t])
    {
      LinkedAt(s, t);
    }
    LinkedAt(s, a.t);
    LinksAll(r);
  }

  lemma LocalLinks(s: State, b: R.Step)
    requires Invariant(s) && Enabled(s, Local(b))
    ensures AllLinked(Take(s, Local(b)))
  {
    hide F.Invariant, R.Invariant, R.Take, R.Enabled, Invariant, AllLinked;
    var r := Take(s, Local(b));
    LocalAct(s, b);
    forall t | 0 <= t < |s.places|
      ensures Linked(r.places[t], r.reader.threads[t], r.global.threads[t])
    {
      LinkedAt(s, t);
    }
    LinkedAt(s, b.t);
    LinksAll(r);
  }

  lemma {:induction false} RunInvariant(states: seq<State>, steps: seq<Step>, k: nat)
    requires Run(states, steps) && k < |states|
    ensures Invariant(states[k])
    decreases k
  {
    hide Invariant, Initial, Enabled, Take;
    if k == 0 {
      StartInvariant(states[0]);
    } else {
      RunInvariant(states, steps, k - 1);
      StepInvariant(states[k - 1], steps[k - 1]);
    }
  }

  lemma StartInvariant(s: State)
    requires Initial(s)
    ensures Invariant(s)
  {
    R.InitialInvariant(Abs(s));
    hide R.Invariant;
  }

  // ------------------------------------------------------------------ what it guarantees

  /** Every run is one of the lock over abstract mutexes, with steps of the mutexes in between. */
  lemma {:induction false} AbstractRun(states: seq<State>, steps: seq<Step>, k: nat)
    returns (above: seq<R.State>, acts: seq<R.Step>)
    requires Run(states, steps) && k < |states|
    ensures R.Run(above, acts) && |above| > 0 && above[|above| - 1] == Abs(states[k])
    decreases k
  {
    hide Invariant, Take, R.Take, R.Enabled, ActOf, R.Initial, Next, F.Enabled, Lent, ReaderCall, GlobalCall;
    if k == 0 {
      above, acts := [Abs(states[0])], [];
    } else {
      above, acts := AbstractRun(states, steps, k - 1);
      var s, x := states[k - 1], steps[k - 1];
      RunInvariant(states, steps, k - 1);
      Refines(s, x);
      if ActOf(s, x).Does? {
        above, acts := Longer(above, acts, ActOf(s, x).b);
      }
    }
  }

  lemma Longer(above: seq<R.State>, acts: seq<R.Step>, b: R.Step) returns (more: seq<R.State>, done: seq<R.Step>)
    requires R.Run(above, acts) && |above| > 0 && R.Enabled(above[|above| - 1], b)
    ensures R.Run(more, done) && |more| > 0 && more[|more| - 1] == R.Take(above[|above| - 1], b)
  {
    hide R.Take, R.Enabled;
    more, done := above + [R.Take(above[|above| - 1], b)], acts + [b];
  }

  /** A writer excludes all readers and all other writers, with both mutexes as they are. */
  lemma Exclusion(states: seq<State>, steps: seq<Step>, k: nat, t: nat, u: nat)
    requires Run(states, steps) && k < |states| && t < |states[k].places| && u < |states[k].places|
    requires states[k].places[t].Writing?
    ensures states[k].places[u].Writing? ==> t == u
    ensures !states[k].places[u].Reading? && !R.Active(states[k].places[u])
  {
    hide Enabled, Take, R.Take, R.Enabled;
    var above, acts := AbstractRun(states, steps, k);
    R.Exclusion(above, acts, |above| - 1, t, u);
  }

  // ------------------------------------------------------------------ progress

  /** Inside the lock, in the middle of an operation, or asleep in one. */
  predicate Busy(s: State, t: nat)
    requires Sized(s)
  {
    t < |s.places| && (!s.places[t].Idle? || !s.reader.threads[t].Idle? || !s.global.threads[t].Idle?)
  }

  predicate Asleep(s: State, t: nat)
    requires Sized(s) && t < |s.places|
  {
    s.reader.threads[t].Sleeping? || s.global.threads[t].Sleeping?
  }

  /** Sleep that ends without a wakeup. */
  predicate Interrupts(x: Step) {
    match x
    case OnReader(a) => a.WaitEnds?
    case OnGlobal(a) => a.WaitEnds?
    case Local(_) => false
  }

  /** Whether thread `t` can go on by itself, taking for granted that a reader or writer ends at last. */
  ghost predicate CanStep(s: State, t: nat) {
    exists x :: Enabled(s, x) && Actor(x) == t && !Interrupts(x)
  }

  /** The step of a mutex operation that a thread is in the middle of. */
  lemma Onward(m: F.State, t: nat) returns (a: F.Step)
    requires t < |m.threads| && !Quiet(m.threads[t]) && !m.threads[t].Sleeping?
    ensures a.t == t && F.Enabled(m, a) && (a.LockExchange? || a.FutexWait? || a.FutexWake?)
    ensures a.LockExchange? ==> F.Wants(m.threads[t])
  {
    if m.threads[t].Contending? {
      a := F.LockExchange(t);
    } else if m.threads[t].Waiting? {
      a := F.FutexWait(t);
    } else if v :| 0 <= v < |m.threads| && m.threads[v].Sleeping? {
      a := F.FutexWake(t, v);
    } else {
      a := F.FutexWake(t, 0);
    }
  }

  /** Only sleep keeps a busy thread from going on. */
  lemma Awake(s: State, t: nat)
    requires Invariant(s) && Busy(s, t) && !Asleep(s, t)
    ensures CanStep(s, t)
  {
    hide F.Invariant, R.Invariant, AllLinked, F.Take, R.Take;
    InvariantParts(s);
    LinkedAt(s, t);
    if !Quiet(s.reader.threads[t]) {
      var a := Onward(s.reader, t);
      assert Enabled(s, OnReader(a));
    } else if !Quiet(s.global.threads[t]) {
      var a := Onward(s.global, t);
      assert Enabled(s, OnGlobal(a));
    } else {
      Between(s, t);
    }
  }

  /** When the readers hold `global`, the group does in the mutex. */
  lemma GroupHolds(s: State)
    requires Invariant(s) && R.ReadersHold(Abs(s))
    ensures s.global.threads[|s.places|].Holding?
  {
    var h :| 0 <= h < |s.global.threads| && s.global.threads[h].Holding?;
    if h < |s.places| {
      LinkedAt(s, h);
      assert R.WriterIn(Abs(s));
      assert false;
    }
  }

  /** The next step of a thread that is in the middle of no mutex operation. */
  lemma Between(s: State, t: nat)
    requires Invariant(s) && Busy(s, t) && Quiet(s.reader.threads[t]) && Quiet(s.global.threads[t])
    ensures CanStep(s, t)
  {
    hide F.Invariant, R.Invariant, AllLinked, F.Take, R.Take, Invariant;
    InvariantParts(s);
    LinkedAt(s, t);
    var x := match s.places[t]
      case Reading => Local(R.ReadUnlock(t))
      case Writing => OnGlobal(F.UnlockExchange(t))
      case LockFirst => OnGlobal(F.LockFirst(t))
      case TryFirst => OnGlobal(F.TryLock(t))
      case TryFailed => Local(R.CountBack(t))
      case UnlockEntering => OnReader(F.LockFirst(t))
      case UnlockEntered => Local(R.CountDown(t))
      case UnlockLast => OnGlobal(F.UnlockExchange(t))
      case LockEntered => Local(R.CountUp(t))
      case TryEntered => Local(R.CountUp(t))
      case _ => OnReader(F.UnlockExchange(t));
    if s.places[t].UnlockLast? {
      GroupHolds(s);
      HandedOver(s.global, |s.places|, t);
    }
    assert Enabled(s, x) && Actor(x) == t;
  }

  /** Somebody who can go on while thread `t` sleeps on `reader`: not a sleeper, or the first
      reader, asleep on `global`. */
  lemma ReaderSleeper(s: State, t: nat) returns (u: nat)
    requires Invariant(s) && t < |s.places| && s.reader.threads[t].Sleeping?
    ensures Busy(s, u) && (CanStep(s, u) || (s.places[u].LockFirst? && s.global.threads[u].Sleeping?))
  {
    hide R.Invariant, AllLinked, F.Invariant, CanStep, Invariant;
    InvariantParts(s);
    u := F.Covered(s.reader, t);
    LinkedAt(s, t);
    if u < |s.places| { LinkedAt(s, u); }
    if !Asleep(s, u) { Awake(s, u); }
  }

  /** Somebody who can go on while a thread sleeps on `global`. */
  lemma GlobalSleeper(s: State, t: nat) returns (u: nat)
    requires Invariant(s) && t < |s.places| && s.global.threads[t].Sleeping?
    ensures Busy(s, u) && CanStep(s, u)
  {
    hide R.Invariant, AllLinked, F.Invariant, CanStep, Invariant;
    InvariantParts(s);
    u := F.Covered(s.global, t);
    LinkedAt(s, t);
    if u < |s.places| {
      LinkedAt(s, u);
      Awake(s, u);
    } else {
      u := GroupMember(s);
      LinkedAt(s, u);
      if s.reader.threads[u].Sleeping? {
        u := ReaderSleeper(s, u);
        NoFirst(s, u);
      } else {
        Awake(s, u);
      }
    }
  }

  /** While the group has `global`, a reader is there, and none waits for `global`. */
  lemma GroupMember(s: State) returns (u: nat)
    requires Invariant(s) && s.global.threads[|s.places|].Holding?
    ensures u < |s.places| && !s.places[u].Idle? && !s.global.threads[u].Sleeping?
  {
    HeldByReaders(s);
    u := CountedOne(Abs(s));
    LinkedAt(s, u);
  }

  lemma HeldByReaders(s: State)
    requires Invariant(s) && s.global.threads[|s.places|].Holding?
    ensures R.ReadersHold(Abs(s)) && R.BlockFits(Abs(s))
  {
    if R.WriterIn(Abs(s)) {
      var w :| 0 <= w < |s.places| && s.places[w].Writing?;
      LinkedAt(s, w);
      assert false;
    }
  }

  lemma NoFirst(s: State, u: nat)
    requires Invariant(s) && s.global.threads[|s.places|].Holding? && u < |s.places|
    ensures !s.places[u].LockFirst?
  {
    HeldByReaders(s);
  }

  /** Readers that hold `global` include a counted one that is not waiting for it, or the last. */
  lemma CountedOne(s: R.State) returns (u: nat)
    requires R.ReadersHold(s) && R.BlockFits(s)
    ensures u < |s.threads| && !s.threads[u].Idle? && !s.threads[u].LockFirst?
  {
    if z :| 0 <= z < |s.threads| && s.threads[z].UnlockLast? {
      u := z;
    } else {
      u := SomeCounted(s.threads);
    }
  }

  lemma {:induction false} SomeCounted(places: seq<R.Place>) returns (u: nat)
    requires R.CountedIn(places) > 0
    ensures u < |places| && R.Counted(places[u])
  {
    var n := |places| - 1;
    if R.Counted(places[n]) {
      u := n;
    } else {
      u := SomeCounted(places[..n]);
    }
  }

  /** No deadlock, asleep or awake: as long as some thread is inside the lock, in the middle of an
      operation or asleep in one, one of these threads can go on by itself. */
  lemma NoDeadlock(states: seq<State>, steps: seq<Step>, k: nat, t: nat) returns (u: nat)
    requires Run(states, steps) && k < |states| && Sized(states[k]) && Busy(states[k], t)
    ensures Busy(states[k], u) && CanStep(states[k], u)
  {
    hide Invariant, Enabled, Take, CanStep;
    RunInvariant(states, steps, k);
    var s := states[k];
    u := t;
    if s.reader.threads[t].Sleeping? {
      u := ReaderSleeper(s, t);
    }
    if s.global.threads[u].Sleeping? {
      u := GlobalSleeper(s, u);
    } else if !s.reader.threads[t].Sleeping? {
      Awake(s, u);
    }
  }
}
