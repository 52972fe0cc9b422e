/**
 Swapping datasets under running queries: a writer that registers new regions, the watchdog
 thread that follows it, and readers.  Each action is one access to shared state between two
 points at which another thread may come in.
 */
module Watchdog {
  import opened Common

  /** A shared region: which memory it names, and since when. */
  datatype Region = Region(timestamp: nat, key: nat)

  datatype Pair = Pair(fixed: Region, updatable: Region)

  /** What facades are made from. */
  datatype Factory = Factory(fixedKey: nat, updatableKey: nat)

  function FactoryOf(p: Pair): Factory {
    Factory(p.fixed.key, p.updatable.key)
  }

  datatype Owner = Nobody | Writer | Watcher

  datatype WriterState = Outside | Entered(fixed: Option<nat>, updatable: nat) | HalfWritten(updatable: nat) | Written

  datatype WatcherState =
    | Unlocked | Checking | Waiting | CopyingFixed | CopyingUpdatable | Copied
    | SwappingFixed | SwappingUpdatable | Swapped | Leaving

  datatype ReaderState = Idle | Inside | HalfRead(fixedKey: nat) | Done(factory: Factory)

  /**
   The register with its mutex, the copies and the factory of the watchdog, and the readers that
   share the lock of the factory.  `history` and `origin` only record what happened: the pairs
   that were registered whenever the mutex was free, and the pair that the factory stands for;
   `results` holds what the readers got, in order, with its origin.
   */
  datatype State = State(
    mutex: Owner, register: Pair, writer: WriterState,
    watcher: WatcherState, copy: Pair, factory: Factory,
    readers: seq<ReaderState>,
    history: seq<Pair>, origin: Pair, results: seq<(Factory, Pair)>)

  /** The constructor: fails if a region is missing. */
  function Construct(fixed: Option<Region>, updatable: Option<Region>, readers: nat): (s: Option<State>)
    ensures s.Some? <==> fixed.Some? && updatable.Some?
    ensures s.Some? ==> Inv(s.value) && s.value.register == Pair(fixed.value, updatable.value)
    ensures s.Some? ==> |s.value.readers| == readers && s.value.results == []
  {
    if fixed.None? || updatable.None? then None
    else
      var p := Pair(fixed.value, updatable.value);
      Some(State(Nobody, p, Outside, Unlocked, p, FactoryOf(p), seq(readers, _ => Idle), [p], p, []))
  }

  // The actions of the threads

  datatype Action =
    | WriterLock(fixed: Option<nat>, updatable: nat) | WriteFixed | WriteUpdatable | WriterUnlock
    | WatcherLock | Check | CopyFixed | CopyUpdatable
    | LockFactory | SwapFixed | SwapUpdatable | UnlockFactory | WatcherUnlock
    | ReaderEnter(id: nat) | ReadFixed(id: nat) | ReadUpdatable(id: nat) | ReaderLeave(id: nat)

  predicate IsSwapping(w: WatcherState) {
    w == SwappingFixed || w == SwappingUpdatable || w == Swapped
  }

  predicate IsEnabled(s: State, a: Action) {
    match a
    case WriterLock(_, _) => s.mutex == Nobody && s.writer == Outside
    case WriteFixed => s.writer.Entered?
    case WriteUpdatable => s.writer.HalfWritten?
    case WriterUnlock => s.writer == Written
    // the watcher also comes back from waiting here, with or without a notification
    case WatcherLock => s.mutex == Nobody && (s.watcher == Unlocked || s.watcher == Waiting)
    case Check => s.watcher == Checking
    case CopyFixed => s.watcher == CopyingFixed
    case CopyUpdatable => s.watcher == CopyingUpdatable
    // a unique lock waits for all shared ones
    case LockFactory => s.watcher == Copied && forall i :: 0 <= i < |s.readers| ==> s.readers[i] == Idle
    case SwapFixed => s.watcher == SwappingFixed
    case SwapUpdatable => s.watcher == SwappingUpdatable
    case UnlockFactory => s.watcher == Swapped
    case WatcherUnlock => s.watcher == Leaving
    case ReaderEnter(id) => id < |s.readers| && s.readers[id] == Idle && !IsSwapping(s.watcher)
    case ReadFixed(id) => id < |s.readers| && s.readers[id] == Inside
    case ReadUpdatable(id) => id < |s.readers| && s.readers[id].HalfRead?
    case ReaderLeave(id) => id < |s.readers| && s.readers[id].Done?
  }

  function Do(s: State, a: Action): State
    requires IsEnabled(s, a)
  {
    match a
    case WriterLock(fixed, updatable) => s.(mutex := Writer, writer := Entered(fixed, updatable))
    case WriteFixed =>
      s.(writer := HalfWritten(s.writer.updatable),
         register := if s.writer.fixed.Some?
                     then s.register.(fixed := Region(s.register.fixed.timestamp + 1, s.writer.fixed.value))
                     else s.register)
    case WriteUpdatable =>
      s.(writer := Written,
         register := s.register.(updatable := Region(s.register.updatable.timestamp + 1, s.writer.updatable)))
    case WriterUnlock => s.(mutex := Nobody, writer := Outside, history := s.history + [s.register])
    case WatcherLock => s.(mutex := Watcher, watcher := Checking)
    case Check =>
      if && s.copy.fixed.timestamp == s.register.fixed.timestamp
         && s.copy.updatable.timestamp == s.register.updatable.timestamp
      then s.(mutex := Nobody, watcher := Waiting)
      else s.(watcher := CopyingFixed)
    case CopyFixed =>
      s.(watcher := CopyingUpdatable,
         copy := if s.copy.fixed.timestamp != s.register.fixed.timestamp
                 then s.copy.(fixed := s.register.fixed) else s.copy)
    case CopyUpdatable =>
      s.(watcher := Copied,
         copy := if s.copy.updatable.timestamp != s.register.updatable.timestamp
                 then s.copy.(updatable := s.register.updatable) else s.copy)
    case LockFactory => s.(watcher := SwappingFixed)
    case SwapFixed => s.(watcher := SwappingUpdatable, factory := s.factory.(fixedKey := s.copy.fixed.key))
    case SwapUpdatable =>
      s.(watcher := Swapped, factory := s.factory.(updatableKey := s.copy.updatable.key), origin := s.copy)
    case UnlockFactory => s.(watcher := Leaving)
    case WatcherUnlock => s.(mutex := Nobody, watcher := Unlocked)
    case ReaderEnter(id) => s.(readers := s.readers[id := Inside])
    case ReadFixed(id) => s.(readers := s.readers[id := HalfRead(s.factory.fixedKey)])
    case ReadUpdatable(id) =>
      var f := Factory(s.readers[id].fixedKey, s.factory.updatableKey);
      s.(readers := s.readers[id := Done(f)], results := s.results + [(f, s.origin)])
    case ReaderLeave(id) => s.(readers := s.readers[id := Idle])
  }

  // The invariant

  /** `r` was registered before `now`, or is the same: a timestamp belongs to one memory only. */
  predicate IsNotNewer(r: Region, now: Region) {
    r == now || r.timestamp < now.timestamp
  }

  predicate ArePast(p: Pair, q: Pair) {
    IsNotNewer(p.fixed, q.fixed) && IsNotNewer(p.updatable, q.updatable)
  }

  /** The mutex is held by the thread that is inside its critical section. */
  predicate OwnershipInv(s: State) {
    && (s.writer != Outside <==> s.mutex == Writer)
    && (s.watcher != Unlocked && s.watcher != Waiting <==> s.mutex == Watcher)
  }

  /** Everything registered so far is in the past, in order, and the register itself unless it is being written. */
  ghost predicate HistoryInv(s: State) {
    && s.history != []
    && (forall i, j :: 0 <= i < j < |s.history| ==> ArePast(s.history[i], s.history[j]))
    && ArePast(s.history[|s.history| - 1], s.register)
    && (s.writer == Outside || s.writer.Entered? ==> s.history[|s.history| - 1] == s.register)
  }

  ghost predicate WatcherInv(s: State) {
    && ArePast(s.copy, s.register) && ArePast(s.origin, s.copy) && s.origin in s.history
    && (s.watcher in {Unlocked, Checking, Waiting, CopyingFixed, Swapped, Leaving} ==> s.copy == s.origin)
    && (s.watcher == CopyingUpdatable ==> s.copy.fixed == s.register.fixed)
    && (s.watcher in {Copied, SwappingFixed, SwappingUpdatable, Swapped, Leaving} ==> s.copy == s.register)
    && (s.watcher != SwappingUpdatable ==> s.factory == FactoryOf(s.origin))
    && (s.watcher == SwappingUpdatable ==> s.factory == Factory(s.copy.fixed.key, s.origin.updatable.key))
  }

  /** No factory is read while it is swapped, and nothing is swapped while it is read. */
  ghost predicate ReaderInv(s: State) {
    && (forall i :: 0 <= i < |s.readers| && s.readers[i] != Idle ==> !IsSwapping(s.watcher))
    && (forall i :: 0 <= i < |s.readers| && s.readers[i].HalfRead? ==> s.readers[i].fixedKey == s.factory.fixedKey)
  }

  /** Every result is the factory of a pair that was registered at one instant, and never older than one before. */
  ghost predicate ResultInv(s: State) {
    && (forall k :: 0 <= k < |s.results| ==> IsOfOneInstant(s, k))
    && (forall k, l :: 0 <= k < l < |s.results| ==> ArePast(s.results[k].1, s.results[l].1))
    && (forall k :: 0 <= k < |s.results| ==> ArePast(s.results[k].1, s.origin))
  }

  ghost predicate IsOfOneInstant(s: State, k: nat)
    requires k < |s.results|
  {
    s.results[k].0 == FactoryOf(s.results[k].1) && s.results[k].1 in s.history
  }

  ghost predicate Inv(s: State) {
    OwnershipInv(s) && HistoryInv(s) && WatcherInv(s) && ReaderInv(s) && ResultInv(s)
  }

  lemma PastIsTransitive(p: Pair, q: Pair, r: Pair)
    requires ArePast(p, q) && ArePast(q, r)
    ensures ArePast(p, r)
  {}

  lemma PastIsReflexive(p: Pair)
    ensures ArePast(p, p)
  {}

  lemma HistoryKept(s: State, a: Action)
    requires OwnershipInv(s) && HistoryInv(s) && IsEnabled(s, a)
    ensures HistoryInv(Do(s, a))
  {
    var s' := Do(s, a);
    if a.WriterUnlock? {
      forall i | 0 <= i < |s.history|
        ensures ArePast(s.history[i], s.register)
      {
        PastIsTransitive(s.history[i], s.history[|s.history| - 1], s.register);
      }
    }
  }

  lemma OwnershipKept(s: State, a: Action)
    requires OwnershipInv(s) && IsEnabled(s, a)
    ensures OwnershipInv(Do(s, a))
  {}

  predicate IsOfWriter(a: Action) {
    a.WriterLock? || a.WriteFixed? || a.WriteUpdatable? || a.WriterUnlock?
  }

  lemma WriterKeepsWatcher(s: State, a: Action)
    requires OwnershipInv(s) && WatcherInv(s) && IsEnabled(s, a) && IsOfWriter(a)
    ensures WatcherInv(Do(s, a))
  {}

  lemma WatcherKept(s: State, a: Action)
    requires OwnershipInv(s) && HistoryInv(s) && WatcherInv(s) && IsEnabled(s, a)
    ensures WatcherInv(Do(s, a))
  {
    if IsOfWriter(a) {
      WriterKeepsWatcher(s, a);
    } else {
      var last := s.history[|s.history| - 1];
      assert last in s.history;
      OthersKeepWatcher(s, a);
    }
  }

  lemma OthersKeepWatcher(s: State, a: Action)
    requires OwnershipInv(s) && WatcherInv(s) && IsEnabled(s, a) && !IsOfWriter(a)
    requires s.writer == Outside ==> s.register in s.history
    ensures WatcherInv(Do(s, a))
  {}

  lemma ReadersKept(s: State, a: Action)
    requires ReaderInv(s) && IsEnabled(s, a)
    ensures ReaderInv(Do(s, a))
  {}

  lemma ResultsKept(s: State, a: Action)
    requires WatcherInv(s) && ReaderInv(s) && ResultInv(s) && IsEnabled(s, a)
    ensures ResultInv(Do(s, a))
  {
    hide ArePast;
    var s' := Do(s, a);
    if a.ReadUpdatable? {
      PastIsReflexive(s.origin);
    }
    forall k | 0 <= k < |s'.results|
      ensures IsOfOneInstant(s', k)
    {
      if k < |s.results| {
        assert IsOfOneInstant(s, k);
      }
    }
    if a.SwapUpdatable? {
      forall k | 0 <= k < |s.results|
        ensures ArePast(s.results[k].1, s'.origin)
      {
        PastIsTransitive(s.results[k].1, s.origin, s.copy);
      }
    }
  }

  lemma InvKept(s: State, a: Action)
    requires Inv(s) && IsEnabled(s, a)
    ensures Inv(Do(s, a))
  {
    hide Do, IsEnabled, OwnershipInv, HistoryInv, WatcherInv, ReaderInv, ResultInv;
    OwnershipKept(s, a);
    HistoryKept(s, a);
    WatcherKept(s, a);
    ReadersKept(s, a);
    ResultsKept(s, a);
  }

  // All runs

  predicate IsRun(s: State, actions: seq<Action>)
    decreases actions
  {
    actions == [] || (IsEnabled(s, actions[0]) && IsRun(Do(s, actions[0]), actions[1..]))
  }

  function After(s: State, actions: seq<Action>): State
    requires IsRun(s, actions)
    decreases actions
  {
    if actions == [] then s else After(Do(s, actions[0]), actions[1..])
  }

  lemma {:induction false} InvAlways(s: State, actions: seq<Action>)
    requires Inv(s) && IsRun(s, actions)
    ensures Inv(After(s, actions))
    decreases actions
  {
    if actions != [] {
      InvKept(s, actions[0]);
      InvAlways(Do(s, actions[0]), actions[1..]);
    }
  }

  /** What the history holds was in the register, at some moment at which nobody held the mutex. */
  lemma {:induction false} HistoryWasRegistered(s: State, actions: seq<Action>, p: Pair) returns (n: nat)
    requires IsRun(s, actions) && p in After(s, actions).history && p !in s.history
    ensures n <= |actions| && IsRun(s, actions[..n])
    ensures After(s, actions[..n]).register == p && After(s, actions[..n]).mutex == Nobody
    decreases actions
  {
    var s', rest := Do(s, actions[0]), actions[1..];
    if p in s'.history {
      n := 1;
      assert actions[..1] == [actions[0]] && [actions[0]][1..] == [];
    } else {
      var m := HistoryWasRegistered(s', rest, p);
      n := m + 1;
      assert actions[..n][0] == actions[0] && actions[..n][1..] == rest[..m];
    }
  }

  /**
   In every interleaving, each reader gets a factory of two regions that were registered together
   at one instant, and what a later reader gets was not registered earlier.
   */
  lemma ResultsAreConsistent(fixed: Region, updatable: Region, readers: nat, actions: seq<Action>)
    requires IsRun(Construct(Some(fixed), Some(updatable), readers).value, actions)
    ensures var s := After(Construct(Some(fixed), Some(updatable), readers).value, actions);
            && (forall k :: 0 <= k < |s.results| ==> IsOfOneInstant(s, k))
            && forall k, l :: 0 <= k < l < |s.results| ==> ArePast(s.results[k].1, s.results[l].1)
  {
    InvAlways(Construct(Some(fixed), Some(updatable), readers).value, actions);
  }

  // What the writer registers, and what readers get

  /** The pair after `before` when these keys are registered. */
  function Registered(before: Pair, fixed: Option<nat>, updatable: nat): Pair {
    Pair(if fixed.Some? then Region(before.fixed.timestamp + 1, fixed.value) else before.fixed,
         Region(before.updatable.timestamp + 1, updatable))
  }

  /** The writer is on its way from one registered pair to the next. */
  predicate IsRegistering(s: State, before: Pair, fixed: Option<nat>, updatable: nat) {
    var next := Registered(before, fixed, updatable);
    match s.writer
    case Outside => false
    case Entered(f, u) => f == fixed && u == updatable && s.register == before
    case HalfWritten(u) => u == updatable && s.register == Pair(next.fixed, before.updatable)
    case Written => s.register == next
  }

  lemma RegisteringGoesOn(s: State, a: Action, before: Pair, fixed: Option<nat>, updatable: nat)
    requires OwnershipInv(s) && IsEnabled(s, a) && IsRegistering(s, before, fixed, updatable)
    ensures if a == WriterUnlock then Do(s, a).history == s.history + [Registered(before, fixed, updatable)]
            else IsRegistering(Do(s, a), before, fixed, updatable) && Do(s, a).history == s.history
  {}

  /**
   Whatever comes in between, a writer that locks with some keys adds these keys to the history when it
   unlocks, each with a timestamp raised by one, and the other region as it was.
   */
  lemma {:induction false} WriterRegisters(s: State, actions: seq<Action>, fixed: Option<nat>, updatable: nat)
    requires OwnershipInv(s) && IsEnabled(s, WriterLock(fixed, updatable))
    requires var s' := Do(s, WriterLock(fixed, updatable));
             IsRun(s', actions) && WriterUnlock !in actions && IsEnabled(After(s', actions), WriterUnlock)
    ensures var last := After(Do(s, WriterLock(fixed, updatable)), actions);
            && Do(last, WriterUnlock).history == s.history
              + [Pair(if fixed.Some? then Region(s.register.fixed.timestamp + 1, fixed.value) else s.register.fixed,
                      Region(s.register.updatable.timestamp + 1, updatable))]
            && Do(last, WriterUnlock).mutex == Nobody && Do(last, WriterUnlock).writer == Outside
  {
    var s' := Do(s, WriterLock(fixed, updatable));
    OwnershipKept(s, WriterLock(fixed, updatable));
    RegisteringInRun(s', actions, s.register, fixed, updatable);
    RegisteringGoesOn(After(s', actions), WriterUnlock, s.register, fixed, updatable);
  }

  lemma {:induction false} RegisteringInRun(s: State, actions: seq<Action>, before: Pair, fixed: Option<nat>,
                                            updatable: nat)
    requires OwnershipInv(s) && IsRegistering(s, before, fixed, updatable)
    requires IsRun(s, actions) && WriterUnlock !in actions
    ensures var last := After(s, actions);
            OwnershipInv(last) && IsRegistering(last, before, fixed, updatable) && last.history == s.history
    decreases actions
  {
    hide Do, OwnershipInv, IsRegistering;
    if actions != [] {
      OwnershipKept(s, actions[0]);
      RegisteringGoesOn(s, actions[0], before, fixed, updatable);
      RegisteringInRun(Do(s, actions[0]), actions[1..], before, fixed, updatable);
    }
  }

  /** A reader gets the factory of a pair that was registered, and this is what is recorded. */
  lemma ReaderGets(s: State, id: nat)
    requires Inv(s) && IsEnabled(s, ReadUpdatable(id))
    ensures var f := Factory(s.origin.fixed.key, s.origin.updatable.key);
            && Do(s, ReadUpdatable(id)).readers[id] == Done(f)
            && Do(s, ReadUpdatable(id)).results == s.results + [(f, s.origin)] && s.origin in s.history
  {}

  /** States that follow one another by enabled actions are a run. */
  lemma {:induction false} TraceIsRun(trace: seq<State>, actions: seq<Action>)
    requires |trace| == |actions| + 1
    requires forall i :: 0 <= i < |actions| ==>
               IsEnabled(trace[i], actions[i]) && trace[i + 1] == Do(trace[i], actions[i])
    ensures IsRun(trace[0], actions) && After(trace[0], actions) == trace[|actions|]
    decreases actions
  {
    hide Do, IsEnabled;
    if actions != [] {
      TraceIsRun(trace[1..], actions[1..]);
    }
  }

  /** The watcher waits if nothing is new. */
  lemma {:induction false} WatcherWaits(s: State)
    requires Inv(s) && s.watcher == Checking && s.copy == s.register
    ensures IsEnabled(s, Check) && Do(s, Check) == s.(mutex := Nobody, watcher := Waiting)
    ensures s.factory == Factory(s.register.fixed.key, s.register.updatable.key)
  {}

  const ROUND := [Check, CopyFixed, CopyUpdatable, LockFactory, SwapFixed, SwapUpdatable, UnlockFactory, WatcherUnlock]

  /**
   Otherwise, when nobody reads, it can go once round, and afterwards the factory stands for the registered
   pair, the mutex is free, and all else is as it was.
   */
  lemma {:induction false} WatcherCatchesUp(s: State)
    requires Inv(s) && s.watcher == Checking && s.copy != s.register
    requires forall i :: 0 <= i < |s.readers| ==> s.readers[i] == Idle
    ensures IsRun(s, ROUND)
    ensures After(s, ROUND) == s.(mutex := Nobody, watcher := Unlocked, copy := s.register, origin := s.register,
                                 factory := Factory(s.register.fixed.key, s.register.updatable.key))
  {
    var copied := s.(watcher := CopyingUpdatable, copy := s.copy.(fixed := s.register.fixed));
    var swapping := s.(watcher := SwappingFixed, copy := s.register);
    var half := swapping.(watcher := SwappingUpdatable,
                          factory := s.factory.(fixedKey := s.register.fixed.key));
    var swapped := half.(watcher := Swapped, origin := s.register,
                         factory := Factory(s.register.fixed.key, s.register.updatable.key));
    NothingNewIsEqual(s);
    CopiesAreMade(s);
    var trace := [s, s.(watcher := CopyingFixed), copied, swapping.(watcher := Copied), swapping, half, swapped,
                  swapped.(watcher := Leaving), swapped.(mutex := Nobody, watcher := Unlocked)];
    TraceIsRun(trace, ROUND);
  }

  lemma {:induction false} NothingNewIsEqual(s: State)
    requires ArePast(s.copy, s.register)
    ensures s.copy.fixed.timestamp == s.register.fixed.timestamp <==> s.copy.fixed == s.register.fixed
    ensures s.copy.updatable.timestamp == s.register.updatable.timestamp <==> s.copy.updatable == s.register.updatable
  {}

  lemma {:induction false} CopiesAreMade(s: State)
    requires ArePast(s.copy, s.register) && s.copy != s.register
    ensures s.watcher == Checking ==> Do(s, Check) == s.(watcher := CopyingFixed)
    ensures var t := s.(watcher := CopyingFixed);
            Do(t, CopyFixed) == s.(watcher := CopyingUpdatable, copy := s.copy.(fixed := s.register.fixed))
    ensures var t := s.(watcher := CopyingUpdatable, copy := s.copy.(fixed := s.register.fixed));
            Do(t, CopyUpdatable) == s.(watcher := Copied, copy := s.register)
  {
    NothingNewIsEqual(s);
  }

  /** A reader that may enter gets the current factory, and can come again. */
  lemma {:induction false} ReaderFinishes(s: State, id: nat)
    requires IsEnabled(s, ReaderEnter(id))
    ensures var actions := [ReaderEnter(id), ReadFixed(id), ReadUpdatable(id), ReaderLeave(id)];
            IsRun(s, actions) && After(s, actions) == s.(results := s.results + [(s.factory, s.origin)])
  {
    var actions := [ReaderEnter(id), ReadFixed(id), ReadUpdatable(id), ReaderLeave(id)];
    var s1 := Do(s, ReaderEnter(id));
    var s2 := Do(s1, ReadFixed(id));
    var s3 := Do(s2, ReadUpdatable(id));
    var s4 := Do(s3, ReaderLeave(id));
    assert s4.readers == s.readers;
    TraceIsRun([s, s1, s2, s3, s4], actions);
  }

  /** No thread is ever stuck: only the mutex and the lock of the factory make it wait. */
  lemma {:induction false} ThreadsGoOn(s: State)
    requires OwnershipInv(s)
    ensures s.mutex == Nobody ==> IsEnabled(s, WatcherLock) && forall f, u :: IsEnabled(s, WriterLock(f, u))
    ensures s.mutex == Writer ==> exists a :: IsOfWriter(a) && IsEnabled(s, a)
    ensures s.mutex == Watcher ==>
              || s.watcher == Copied || IsEnabled(s, Check) || IsEnabled(s, CopyFixed) || IsEnabled(s, CopyUpdatable)
              || IsEnabled(s, SwapFixed) || IsEnabled(s, SwapUpdatable) || IsEnabled(s, UnlockFactory)
              || IsEnabled(s, WatcherUnlock)
  {
    if s.mutex == Writer {
      WriterGoesOn(s);
    }
  }

  lemma {:induction false} WriterGoesOn(s: State)
    requires s.writer != Outside
    ensures exists a :: IsOfWriter(a) && IsEnabled(s, a)
  {
    var a := match s.writer
      case Entered(_, _) => WriteFixed
      case HalfWritten(_) => WriteUpdatable
      case _ => WriterUnlock;
    assert IsOfWriter(a) && IsEnabled(s, a);
  }

  lemma {:induction false} ReadersGoOn(s: State)
    ensures s.watcher == Copied && (forall id :: 0 <= id < |s.readers| ==> s.readers[id] == Idle) ==>
              IsEnabled(s, LockFactory)
    ensures forall id :: 0 <= id < |s.readers| && (s.readers[id] == Idle ==> !IsSwapping(s.watcher)) ==>
              || IsEnabled(s, ReaderEnter(id)) || IsEnabled(s, ReadFixed(id))
              || IsEnabled(s, ReadUpdatable(id)) || IsEnabled(s, ReaderLeave(id))
  {}

  /** When the watcher goes to wait, its factory is that of the pair which is registered at that moment. */
  lemma WaitsWithCurrentFactory(s: State)
    requires Inv(s) && IsEnabled(s, Check) && Do(s, Check).watcher == Waiting
    ensures s.copy == s.register && s.factory == FactoryOf(s.register)
  {}
}
