/** The cache of open driver adapters (manager/ipc_driver.go) as a machine of interleaved steps: any number of threads
    look adapters up, use them and release names. A thread's program counter says where in findDriverAdapter or
    releaseDriverAdapter it is and what it found. The reader-writer lock is Go's: once a writer waits, no reader enters. */
module DriverAdapters {
  import opened Wrappers

  type Thread = nat
  type Adapter = nat

  datatype PC =
    | Idle
    // findDriverAdapter
    | FindRLock(name: string)                      // before driverAdaptersLock.RLock
    | FindRead(name: string)                       // holds the read lock, before the lookup
    | FindRWait(name: string, a: Adapter)          // holds the read lock, before the adapter's Lock
    | FindRGot(name: string, a: Adapter)           // holds both, before RUnlock
    | FindRMissed(name: string)                    // holds the read lock, found nothing
    | FindWLock(name: string)                      // before driverAdaptersLock.Lock
    | FindWPending(name: string)                   // waits for readers to leave
    | FindWrite(name: string)                      // holds the write lock, before the second lookup
    | FindWWait(name: string, a: Adapter)          // holds the write lock, before the adapter's Lock
    | FindWGot(name: string, a: Adapter)           // holds both, before Unlock
    | FindOpen(name: string)                       // holds the write lock, before OpenAdapter
    | FindOpened(name: string, a: Adapter)         // holds the write lock and an adapter not yet stored
    | FindFailed(name: string)                     // holds the write lock, OpenAdapter failed
    // the caller, between a successful find and its Unlock
    | Using(name: string, a: Adapter)
    // releaseDriverAdapter
    | RelWLock(name: string)
    | RelPending(name: string)
    | RelWrite(name: string)                       // holds the write lock, before the lookup
    | RelWait(name: string, a: Adapter)            // holds the write lock, before the adapter's Lock
    | RelDelete(name: string, a: Adapter)          // holds both, before the delete
    | RelClose(name: string, a: Adapter)           // holds both, before Close
    | RelUnlock(name: string, a: Adapter)          // holds both, before the adapter's Unlock
    | RelDone(name: string)                        // holds the write lock, before Unlock

  /** `names` lists the adapters opened so far with their names; `closes` counts the calls of Close. */
  datatype State = State(
    threads: map<Thread, PC>,
    cache: map<string, Adapter>,
    names: seq<string>,
    closes: multiset<Adapter>,
    locks: map<Adapter, Thread>,
    readers: set<Thread>,
    pending: Option<Thread>,
    writer: Option<Thread>)
  {
    function At(t: Thread): PC { if t in threads then threads[t] else Idle }

    predicate Cached(name: string, a: Adapter) { name in cache && cache[name] == a }

    predicate Closed(a: Adapter) { closes[a] > 0 }
  }

  const START: State := State(map[], map[], [], multiset{}, map[], {}, None, None)

  /** What the environment decides: which call an idle thread makes, and whether OpenAdapter succeeds. */
  datatype Choice = Find(name: string) | Release(name: string) | Succeed | Fail

  function Move(s: State, t: Thread, pc: PC): State { s.(threads := s.threads[t := pc]) }

  function LockWriter(s: State, t: Thread, pc: PC): Option<State> {
    if s.pending.None? && s.writer.None? then Some(Move(s, t, pc).(pending := Some(t))) else None
  }

  function EnterWriter(s: State, t: Thread, pc: PC): Option<State> {
    if s.readers == {} then Some(Move(s, t, pc).(pending := None, writer := Some(t))) else None
  }

  function LeaveWriter(s: State, t: Thread, pc: PC): Option<State> {
    Some(Move(s, t, pc).(writer := None))
  }

  function LockAdapter(s: State, t: Thread, a: Adapter, pc: PC): Option<State> {
    if a !in s.locks then Some(Move(s, t, pc).(locks := s.locks[a := t])) else None
  }

  function UnlockAdapter(s: State, t: Thread, a: Adapter, pc: PC): Option<State> {
    Some(Move(s, t, pc).(locks := s.locks - {a}))
  }

  /** findDriverAdapter as long as it has at most the read lock. */
  predicate FindsShared(pc: PC) {
    pc.FindRLock? || pc.FindRead? || pc.FindRWait? || pc.FindRGot? || pc.FindRMissed?
  }

  function FindShared(s: State, t: Thread, pc: PC): Option<State>
    requires FindsShared(pc)
  {
    match pc
    case FindRLock(name) =>
      if s.pending.None? && s.writer.None? then Some(Move(s, t, FindRead(name)).(readers := s.readers + {t})) else None
    case FindRead(name) =>
      Some(Move(s, t, if name in s.cache then FindRWait(name, s.cache[name]) else FindRMissed(name)))
    case FindRWait(name, a) => LockAdapter(s, t, a, FindRGot(name, a))
    case FindRGot(name, a) => Some(Move(s, t, Using(name, a)).(readers := s.readers - {t}))
    case FindRMissed(name) => Some(Move(s, t, FindWLock(name)).(readers := s.readers - {t}))
  }

  /** findDriverAdapter from there on. */
  predicate FindsAlone(pc: PC) {
    || pc.FindWLock? || pc.FindWPending? || pc.FindWrite? || pc.FindWWait? || pc.FindWGot? || pc.FindOpen?
    || pc.FindOpened? || pc.FindFailed?
  }

  function FindAlone(s: State, t: Thread, pc: PC, c: Choice): Option<State>
    requires FindsAlone(pc)
  {
    match pc
    case FindWLock(name) => LockWriter(s, t, FindWPending(name))
    case FindWPending(name) => EnterWriter(s, t, FindWrite(name))
    case FindWrite(name) =>
      Some(Move(s, t, if name in s.cache then FindWWait(name, s.cache[name]) else FindOpen(name)))
    case FindWWait(name, a) => LockAdapter(s, t, a, FindWGot(name, a))
    case FindWGot(name, a) => LeaveWriter(s, t, Using(name, a))
    case FindOpen(name) =>
      if c.Fail? then Some(Move(s, t, FindFailed(name)))
      else Some(Move(s, t, FindOpened(name, |s.names|)).(names := s.names + [name]))
    case FindOpened(name, a) => Some(Move(s, t, FindWWait(name, a)).(cache := s.cache[name := a]))
    case FindFailed(name) => LeaveWriter(s, t, Idle)
  }

  /** releaseDriverAdapter. */
  predicate Releasing(pc: PC) {
    || pc.RelWLock? || pc.RelPending? || pc.RelWrite? || pc.RelWait? || pc.RelDelete? || pc.RelClose? || pc.RelUnlock?
    || pc.RelDone?
  }

  function Releases(s: State, t: Thread, pc: PC): Option<State>
    requires Releasing(pc)
  {
    match pc
    case RelWLock(name) => LockWriter(s, t, RelPending(name))
    case RelPending(name) => EnterWriter(s, t, RelWrite(name))
    case RelWrite(name) =>
      Some(Move(s, t, if name in s.cache then RelWait(name, s.cache[name]) else RelDone(name)))
    case RelWait(name, a) => LockAdapter(s, t, a, RelDelete(name, a))
    case RelDelete(name, a) => Some(Move(s, t, RelClose(name, a)).(cache := s.cache - {name}))
    case RelClose(name, a) => Some(Move(s, t, RelUnlock(name, a)).(closes := s.closes + multiset{a}))
    case RelUnlock(name, a) => UnlockAdapter(s, t, a, RelDone(name))
    case RelDone(name) => LeaveWriter(s, t, Idle)
  }

  /** An idle thread makes a call. */
  function Calls(s: State, t: Thread, c: Choice): Option<State> {
    match c
    case Find(name) => Some(Move(s, t, FindRLock(name)))
    case Release(name) => Some(Move(s, t, RelWLock(name)))
    case _ => None
  }

  /** One step of thread t; None if it has to wait. */
  function Next(s: State, t: Thread, c: Choice): Option<State> {
    var pc := s.At(t);
    if pc.Idle? then Calls(s, t, c)
    else if pc.Using? then UnlockAdapter(s, t, pc.a, Idle)
    else if FindsShared(pc) then FindShared(s, t, pc)
    else if Releasing(pc) then Releases(s, t, pc)
    else FindAlone(s, t, pc, c)
  }

  // ---------------------------------------------------------------- what every run keeps

  predicate HoldsRead(pc: PC) { pc.FindRead? || pc.FindRWait? || pc.FindRGot? || pc.FindRMissed? }

  predicate Waits(pc: PC) { pc.FindWPending? || pc.RelPending? }

  predicate HoldsWrite(pc: PC) {
    || pc.FindWrite? || pc.FindWWait? || pc.FindWGot? || pc.FindOpen? || pc.FindOpened? || pc.FindFailed?
    || pc.RelWrite? || pc.RelWait? || pc.RelDelete? || pc.RelClose? || pc.RelUnlock? || pc.RelDone?
  }

  predicate HoldsAdapter(pc: PC, a: Adapter) {
    (pc.FindRGot? || pc.FindWGot? || pc.Using? || pc.RelDelete? || pc.RelClose? || pc.RelUnlock?) && pc.a == a
  }

  /** An adapter that is open but not in the cache, between opening and storing or between deleting and closing. */
  predicate InFlight(pc: PC, a: Adapter) { (pc.FindOpened? || pc.RelClose?) && pc.a == a }

  /** What a thread knows at its program counter. */
  predicate Knows(s: State, pc: PC) {
    match pc
    case FindRWait(name, a) => s.Cached(name, a)
    case FindRGot(name, a) => s.Cached(name, a)
    case FindWWait(name, a) => s.Cached(name, a)
    case FindWGot(name, a) => s.Cached(name, a)
    case Using(name, a) => s.Cached(name, a)
    case RelWait(name, a) => s.Cached(name, a)
    case RelDelete(name, a) => s.Cached(name, a)
    case FindOpen(name) => name !in s.cache
    case FindOpened(name, a) => name !in s.cache && a < |s.names| && s.names[a] == name && !s.Closed(a) && a !in s.locks
    case RelClose(name, a) => name !in s.cache && a < |s.names| && s.names[a] == name && !s.Closed(a)
    case RelUnlock(name, a) => name !in s.cache && a < |s.names| && s.names[a] == name && s.Closed(a)
    case RelDone(name) => name !in s.cache
    case _ => true
  }

  ghost predicate ThreadOk(s: State, t: Thread) {
    var pc := s.At(t);
    && (HoldsRead(pc) <==> t in s.readers)
    && (Waits(pc) <==> s.pending == Some(t))
    && (HoldsWrite(pc) <==> s.writer == Some(t))
    && (forall a :: HoldsAdapter(pc, a) <==> a in s.locks && s.locks[a] == t)
    && Knows(s, pc)
  }

  ghost predicate LocksOk(s: State) {
    && (s.writer.Some? ==> s.readers == {} && s.pending.None?)
  }

  ghost predicate CacheOk(s: State) {
    && (forall n :: n in s.cache ==> s.cache[n] < |s.names| && s.names[s.cache[n]] == n && !s.Closed(s.cache[n]))
    && (forall a | a in s.closes :: a < |s.names| && s.closes[a] == 1)
  }

  /** Every open adapter is cached under its name, or on its way in or out in the hands of the writer. */
  ghost predicate OpenOk(s: State) {
    forall a | 0 <= a < |s.names| && !s.Closed(a) ::
      s.Cached(s.names[a], a) || (s.writer.Some? && InFlight(s.At(s.writer.value), a))
  }

  ghost predicate Inv(s: State) {
    (forall t :: ThreadOk(s, t)) && LocksOk(s) && CacheOk(s) && OpenOk(s)
  }

  lemma StartInv()
    ensures Inv(START)
  {
  }

  // ---------------------------------------------------------------- each kind of step keeps it

  ghost predicate SameAdapter(pc: PC, pc': PC) { forall a :: HoldsAdapter(pc, a) <==> HoldsAdapter(pc', a) }

  ghost predicate SameMap(pc: PC, pc': PC) {
    HoldsRead(pc) == HoldsRead(pc') && Waits(pc) == Waits(pc') && HoldsWrite(pc) == HoldsWrite(pc')
  }

  predicate Settled(pc: PC) { !pc.FindOpened? && !pc.RelClose? }

  /** A step that touches no lock and no table. */
  lemma {:induction false} MoveKeeps(s: State, t: Thread, pc: PC)
    requires Inv(s) && SameMap(s.At(t), pc) && SameAdapter(s.At(t), pc)
    requires Settled(s.At(t)) && Settled(pc) && Knows(s, pc)
    ensures Inv(Move(s, t, pc))
  {
    hide HoldsRead, Waits, HoldsWrite, HoldsAdapter, Knows;
    var s' := Move(s, t, pc);
    assert ThreadOk(s, t);
    forall u
      ensures ThreadOk(s', u)
    {
      assert ThreadOk(s, u);
      OpenedUnlocked(s, s.At(u));
      KnowsSame(s, s', if u == t then pc else s.At(u));
    }
  }

  lemma {:induction false} ReadLockKeeps(s: State, t: Thread, pc: PC)
    requires Inv(s) && SameAdapter(s.At(t), pc) && Settled(s.At(t)) && Settled(pc) && Knows(s, pc)
    requires HoldsRead(pc) && !Waits(pc) && !HoldsWrite(pc)
    requires s.writer.None? && s.pending.None?
    ensures Inv(Move(s, t, pc).(readers := s.readers + {t}))
  {
    hide HoldsRead, Waits, HoldsWrite, HoldsAdapter, Knows;
    var s' := Move(s, t, pc).(readers := s.readers + {t});
    assert ThreadOk(s, t);
    forall u
      ensures ThreadOk(s', u)
    {
      assert ThreadOk(s, u);
      OpenedUnlocked(s, s.At(u));
      KnowsSame(s, s', if u == t then pc else s.At(u));
    }
  }

  lemma {:induction false} ReadUnlockKeeps(s: State, t: Thread, pc: PC)
    requires Inv(s) && SameAdapter(s.At(t), pc) && Settled(s.At(t)) && Settled(pc) && Knows(s, pc)
    requires HoldsRead(s.At(t)) && !HoldsRead(pc) && Waits(s.At(t)) == Waits(pc) && HoldsWrite(s.At(t)) == HoldsWrite(pc)
    ensures Inv(Move(s, t, pc).(readers := s.readers - {t}))
  {
    hide HoldsRead, Waits, HoldsWrite, HoldsAdapter, Knows;
    var s' := Move(s, t, pc).(readers := s.readers - {t});
    assert ThreadOk(s, t);
    forall u
      ensures ThreadOk(s', u)
    {
      assert ThreadOk(s, u);
      OpenedUnlocked(s, s.At(u));
      KnowsSame(s, s', if u == t then pc else s.At(u));
    }
  }

  lemma {:induction false} LockWriterKeeps(s: State, t: Thread, pc: PC)
    requires Inv(s) && SameAdapter(s.At(t), pc) && Settled(s.At(t)) && Settled(pc) && Knows(s, pc)
    requires HoldsRead(s.At(t)) == HoldsRead(pc) && Waits(pc) && !HoldsWrite(pc)
    requires LockWriter(s, t, pc).Some?
    ensures Inv(LockWriter(s, t, pc).value)
  {
    hide HoldsRead, Waits, HoldsWrite, HoldsAdapter, Knows;
    var s' := LockWriter(s, t, pc).value;
    assert ThreadOk(s, t);
    forall u
      ensures ThreadOk(s', u)
    {
      assert ThreadOk(s, u);
      OpenedUnlocked(s, s.At(u));
      KnowsSame(s, s', if u == t then pc else s.At(u));
    }
  }

  lemma {:induction false} EnterWriterKeeps(s: State, t: Thread, pc: PC)
    requires Inv(s) && SameAdapter(s.At(t), pc) && Settled(s.At(t)) && Settled(pc) && Knows(s, pc)
    requires Waits(s.At(t)) && !Waits(pc) && HoldsWrite(pc) && HoldsRead(s.At(t)) == HoldsRead(pc)
    requires EnterWriter(s, t, pc).Some?
    ensures Inv(EnterWriter(s, t, pc).value)
  {
    hide HoldsRead, Waits, HoldsWrite, HoldsAdapter, Knows;
    var s' := EnterWriter(s, t, pc).value;
    assert ThreadOk(s, t);
    forall u
      ensures ThreadOk(s', u)
    {
      assert ThreadOk(s, u);
      OpenedUnlocked(s, s.At(u));
      KnowsSame(s, s', if u == t then pc else s.At(u));
    }
  }

  lemma {:induction false} LeaveWriterKeeps(s: State, t: Thread, pc: PC)
    requires Inv(s) && SameAdapter(s.At(t), pc) && Settled(s.At(t)) && Settled(pc) && Knows(s, pc)
    requires HoldsWrite(s.At(t)) && !HoldsWrite(pc) && Waits(s.At(t)) == Waits(pc) && HoldsRead(s.At(t)) == HoldsRead(pc)
    ensures Inv(LeaveWriter(s, t, pc).value)
  {
    hide HoldsRead, Waits, HoldsWrite, HoldsAdapter, Knows;
    var s' := LeaveWriter(s, t, pc).value;
    assert ThreadOk(s, t);
    forall u
      ensures ThreadOk(s', u)
    {
      assert ThreadOk(s, u);
      OpenedUnlocked(s, s.At(u));
      KnowsSame(s, s', if u == t then pc else s.At(u));
    }
  }

  /** What a thread knows does not depend on who holds which lock, except for an adapter just opened. */
  lemma KnowsSame(s: State, s': State, pc: PC)
    requires Knows(s, pc) && s'.cache == s.cache && s'.names == s.names && s'.closes == s.closes
    requires pc.FindOpened? ==> pc.a !in s'.locks
    ensures Knows(s', pc)
  {
  }

  /** An adapter just opened is not the one that is locked. */
  lemma JustOpened(s: State, pc: PC, name: string, a: Adapter)
    requires CacheOk(s) && Knows(s, pc) && s.Cached(name, a)
    ensures pc.FindOpened? ==> pc.a != a && pc.a !in s.locks
  {
  }

  /** Locking an adapter that is in the cache. */
  lemma {:induction false} LockAdapterKeeps(s: State, t: Thread, name: string, a: Adapter, pc: PC)
    requires Inv(s) && SameMap(s.At(t), pc) && Settled(s.At(t)) && Settled(pc) && Knows(s, pc)
    requires (forall b :: !HoldsAdapter(s.At(t), b)) && forall b :: HoldsAdapter(pc, b) <==> b == a
    requires s.Cached(name, a) && LockAdapter(s, t, a, pc).Some?
    ensures Inv(LockAdapter(s, t, a, pc).value)
  {
    hide HoldsRead, Waits, HoldsWrite, HoldsAdapter, Knows;
    var s' := LockAdapter(s, t, a, pc).value;
    assert ThreadOk(s, t);
    forall u
      ensures ThreadOk(s', u)
    {
      assert ThreadOk(s, u);
      JustOpened(s, s.At(u), name, a);
      KnowsSame(s, s', if u == t then pc else s.At(u));
    }
  }

  lemma {:induction false} UnlockAdapterKeeps(s: State, t: Thread, a: Adapter, pc: PC)
    requires Inv(s) && SameMap(s.At(t), pc) && Settled(s.At(t)) && Settled(pc) && Knows(s, pc)
    requires (forall b :: !HoldsAdapter(pc, b)) && forall b :: HoldsAdapter(s.At(t), b) <==> b == a
    ensures Inv(UnlockAdapter(s, t, a, pc).value)
  {
    hide HoldsRead, Waits, HoldsWrite, HoldsAdapter, Knows;
    var s' := UnlockAdapter(s, t, a, pc).value;
    assert ThreadOk(s, t);
    forall u
      ensures ThreadOk(s', u)
    {
      assert ThreadOk(s, u);
      OpenedUnlocked(s, s.At(u));
      KnowsSame(s, s', if u == t then pc else s.At(u));
    }
  }

  lemma OpenedUnlocked(s: State, pc: PC)
    requires Knows(s, pc)
    ensures pc.FindOpened? ==> pc.a !in s.locks
  {
  }

  lemma {:induction false} OpenKeeps(s: State, t: Thread, name: string)
    requires Inv(s) && s.At(t) == FindOpen(name)
    ensures Inv(Move(s, t, FindOpened(name, |s.names|)).(names := s.names + [name]))
  {
    hide HoldsRead, Waits, HoldsAdapter;
    var a := |s.names|;
    var s' := Move(s, t, FindOpened(name, a)).(names := s.names + [name]);
    OpenClasses(name, a);
    assert ThreadOk(s, t);
    FreshAdapter(s);
    forall u
      ensures ThreadOk(s', u)
    {
      assert ThreadOk(s, u);
    }
  }

  lemma OpenClasses(name: string, a: Adapter)
    ensures SameMap(FindOpen(name), FindOpened(name, a)) && SameAdapter(FindOpen(name), FindOpened(name, a))
    ensures SameMap(FindOpened(name, a), FindWWait(name, a)) && SameAdapter(FindOpened(name, a), FindWWait(name, a))
    ensures SameMap(RelDelete(name, a), RelClose(name, a)) && SameAdapter(RelDelete(name, a), RelClose(name, a))
    ensures SameMap(RelClose(name, a), RelUnlock(name, a)) && SameAdapter(RelClose(name, a), RelUnlock(name, a))
  {
  }

  /** Nobody holds, stores or has closed an adapter that is not open yet. */
  lemma {:induction false} FreshAdapter(s: State)
    requires Inv(s)
    ensures |s.names| !in s.locks && s.closes[|s.names|] == 0
    ensures forall n :: n in s.cache ==> s.cache[n] != |s.names|
  {
    if |s.names| in s.locks {
      var u := s.locks[|s.names|];
      assert ThreadOk(s, u);
      assert HoldsAdapter(s.At(u), |s.names|);
      HeldIsOpened(s, u, |s.names|);
    }
  }

  /** A held adapter has been opened, and carries its thread's name. */
  lemma {:induction false} HeldIsOpened(s: State, u: Thread, a: Adapter)
    requires Inv(s) && HoldsAdapter(s.At(u), a)
    ensures a < |s.names|
  {
    assert ThreadOk(s, u);
  }

  lemma {:induction false} StoreKeeps(s: State, t: Thread, name: string, a: Adapter)
    requires Inv(s) && s.At(t) == FindOpened(name, a)
    ensures Inv(Move(s, t, FindWWait(name, a)).(cache := s.cache[name := a]))
  {
    hide HoldsRead, Waits, HoldsAdapter;
    var s' := Move(s, t, FindWWait(name, a)).(cache := s.cache[name := a]);
    OpenClasses(name, a);
    assert ThreadOk(s, t);
    forall u
      ensures ThreadOk(s', u)
    {
      assert ThreadOk(s, u);
    }
  }

  /** Only the holder of an adapter's lock knows it to be cached while it is deleted. */
  lemma {:induction false} DeleteKeeps(s: State, t: Thread, name: string, a: Adapter)
    requires Inv(s) && s.At(t) == RelDelete(name, a)
    ensures Inv(Move(s, t, RelClose(name, a)).(cache := s.cache - {name}))
  {
    hide Waits;
    var s' := Move(s, t, RelClose(name, a)).(cache := s.cache - {name});
    OpenClasses(name, a);
    assert ThreadOk(s, t);
    assert HoldsAdapter(s.At(t), a);
    forall u
      ensures ThreadOk(s', u)
    {
      assert ThreadOk(s, u);
      assert HoldsAdapter(s.At(u), a) ==> u == t;
    }
  }

  lemma {:induction false} CloseKeeps(s: State, t: Thread, name: string, a: Adapter)
    requires Inv(s) && s.At(t) == RelClose(name, a)
    ensures Inv(Move(s, t, RelUnlock(name, a)).(closes := s.closes + multiset{a}))
  {
    hide HoldsRead, Waits;
    var s' := Move(s, t, RelUnlock(name, a)).(closes := s.closes + multiset{a});
    OpenClasses(name, a);
    assert ThreadOk(s, t);
    forall u
      ensures ThreadOk(s', u)
    {
      assert ThreadOk(s, u);
    }
  }

  // ---------------------------------------------------------------- every step keeps it

  lemma {:induction false} StepKeeps(s: State, t: Thread, c: Choice)
    requires Inv(s) && Next(s, t, c).Some?
    ensures Inv(Next(s, t, c).value)
  {
    hide Inv, CacheOk, OpenOk, LocksOk, FindShared, FindAlone, Releases, Calls;
    KnowsAt(s, t);
    if s.At(t).FindRLock? || s.At(t).FindRead? || s.At(t).FindRWait? || s.At(t).FindRGot? || s.At(t).FindRMissed? {
      ReadStepKeeps(s, t, c);
    } else if s.At(t).Idle? || s.At(t).Using? || s.At(t).FindWLock? || s.At(t).FindWPending? || s.At(t).FindWrite? {
      WaitStepKeeps(s, t, c);
    } else if s.At(t).FindWWait? || s.At(t).FindWGot? || s.At(t).FindOpen? || s.At(t).FindOpened? || s.At(t).FindFailed? {
      WriteStepKeeps(s, t, c);
    } else {
      ReleaseStepKeeps(s, t, c);
    }
  }

  lemma KnowsAt(s: State, t: Thread)
    requires Inv(s)
    ensures Knows(s, s.At(t))
  {
    assert ThreadOk(s, t);
  }

  lemma {:induction false} ReadStepKeeps(s: State, t: Thread, c: Choice)
    requires Inv(s) && Next(s, t, c).Some? && Knows(s, s.At(t))
    requires var pc := s.At(t); pc.FindRLock? || pc.FindRead? || pc.FindRWait? || pc.FindRGot? || pc.FindRMissed?
    ensures Inv(Next(s, t, c).value)
  {
    hide Inv, CacheOk, OpenOk, LocksOk, FindAlone, Releases, Calls;
    match s.At(t)
    case FindRLock(name) => ReadLockKeeps(s, t, FindRead(name));
    case FindRead(name) =>
      MoveKeeps(s, t, if name in s.cache then FindRWait(name, s.cache[name]) else FindRMissed(name));
    case FindRWait(name, a) => LockAdapterKeeps(s, t, name, a, FindRGot(name, a));
    case FindRGot(name, a) => ReadUnlockKeeps(s, t, Using(name, a));
    case FindRMissed(name) => ReadUnlockKeeps(s, t, FindWLock(name));
  }

  lemma {:induction false} WaitStepKeeps(s: State, t: Thread, c: Choice)
    requires Inv(s) && Next(s, t, c).Some? && Knows(s, s.At(t))
    requires var pc := s.At(t); pc.Idle? || pc.Using? || pc.FindWLock? || pc.FindWPending? || pc.FindWrite?
    ensures Inv(Next(s, t, c).value)
  {
    hide Inv, CacheOk, OpenOk, LocksOk, FindShared, Releases;
    match s.At(t)
    case Idle => MoveKeeps(s, t, if c.Find? then FindRLock(c.name) else RelWLock(c.name));
    case Using(name, a) => UnlockAdapterKeeps(s, t, a, Idle);
    case FindWLock(name) => LockWriterKeeps(s, t, FindWPending(name));
    case FindWPending(name) => EnterWriterKeeps(s, t, FindWrite(name));
    case FindWrite(name) =>
      MoveKeeps(s, t, if name in s.cache then FindWWait(name, s.cache[name]) else FindOpen(name));
  }

  lemma {:induction false} WriteStepKeeps(s: State, t: Thread, c: Choice)
    requires Inv(s) && Next(s, t, c).Some? && Knows(s, s.At(t))
    requires var pc := s.At(t); pc.FindWWait? || pc.FindWGot? || pc.FindOpen? || pc.FindOpened? || pc.FindFailed?
    ensures Inv(Next(s, t, c).value)
  {
    hide Inv, CacheOk, OpenOk, LocksOk, FindShared, Releases, Calls;
    match s.At(t)
    case FindWWait(name, a) => LockAdapterKeeps(s, t, name, a, FindWGot(name, a));
    case FindWGot(name, a) => LeaveWriterKeeps(s, t, Using(name, a));
    case FindOpen(name) => if c.Fail? { MoveKeeps(s, t, FindFailed(name)); } else { OpenKeeps(s, t, name); }
    case FindOpened(name, a) => StoreKeeps(s, t, name, a);
    case FindFailed(name) => LeaveWriterKeeps(s, t, Idle);
  }

  lemma {:induction false} ReleaseStepKeeps(s: State, t: Thread, c: Choice)
    requires Inv(s) && Next(s, t, c).Some? && Knows(s, s.At(t)) && Releasing(s.At(t))
    ensures Inv(Next(s, t, c).value)
  {
    hide Inv, CacheOk, OpenOk, LocksOk, FindShared, FindAlone, Releases, Calls;
    if s.At(t).RelWLock? || s.At(t).RelPending? || s.At(t).RelWrite? || s.At(t).RelWait? {
      ReleaseBegins(s, t, s.At(t));
    } else {
      ReleaseEnded(s, t, s.At(t));
    }
  }

  lemma {:induction false} ReleaseBegins(s: State, t: Thread, pc: PC)
    requires Inv(s) && pc == s.At(t) && Knows(s, pc)
    requires (pc.RelWLock? || pc.RelPending? || pc.RelWrite? || pc.RelWait?) && Releases(s, t, pc).Some?
    ensures Inv(Releases(s, t, pc).value)
  {
    hide Inv, CacheOk, OpenOk, LocksOk;
    match pc
    case RelWLock(name) => LockWriterKeeps(s, t, RelPending(name));
    case RelPending(name) => EnterWriterKeeps(s, t, RelWrite(name));
    case RelWrite(name) =>
      MoveKeeps(s, t, if name in s.cache then RelWait(name, s.cache[name]) else RelDone(name));
    case RelWait(name, a) => LockAdapterKeeps(s, t, name, a, RelDelete(name, a));
  }

  lemma {:induction false} ReleaseEnded(s: State, t: Thread, pc: PC)
    requires Inv(s) && pc == s.At(t) && Knows(s, pc)
    requires (pc.RelDelete? || pc.RelClose? || pc.RelUnlock? || pc.RelDone?) && Releases(s, t, pc).Some?
    ensures Inv(Releases(s, t, pc).value)
  {
    hide Inv, CacheOk, OpenOk, LocksOk;
    match pc
    case RelDelete(name, a) => DeleteKeeps(s, t, name, a);
    case RelClose(name, a) => CloseKeeps(s, t, name, a);
    case RelUnlock(name, a) => UnlockAdapterKeeps(s, t, a, RelDone(name));
    case RelDone(name) => LeaveWriterKeeps(s, t, Idle);
  }

  // ---------------------------------------------------------------- runs

  /** What happened: which thread moved, and what the environment decided. */
  datatype Event = Event(thread: Thread, choice: Choice)

  /** The state after a run, None if some thread could not have moved when it did. */
  function After(events: seq<Event>): Option<State>
    decreases |events|
  {
    if events == [] then Some(START)
    else
      match After(events[..|events| - 1])
      case None => None
      case Some(s) => Next(s, events[|events| - 1].thread, events[|events| - 1].choice)
  }

  lemma {:induction false} RunKeeps(events: seq<Event>)
    requires After(events).Some?
    ensures Inv(After(events).value)
    decreases |events|
  {
    hide Next, Inv;
    if events == [] {
      StartInv();
    } else {
      var e := events[|events| - 1];
      RunKeeps(events[..|events| - 1]);
      StepKeeps(After(events[..|events| - 1]).value, e.thread, e.choice);
    }
  }

  /** In every run, an adapter handed out is locked by its finder and by nobody else, is the cached one for its name,
      and is not closed. */
  lemma {:induction false} HandedOutIsOpen(events: seq<Event>, t: Thread)
    requires After(events).Some? && After(events).value.At(t).Using?
    ensures var s := After(events).value;
            var pc := s.At(t);
            && pc.a in s.locks && s.locks[pc.a] == t
            && s.Cached(pc.name, pc.a) && pc.a < |s.names| && s.names[pc.a] == pc.name && !s.Closed(pc.a)
            && forall u :: u != t && s.At(u).Using? ==> s.At(u).a != pc.a
  {
    hide After, OpenOk, LocksOk;
    RunKeeps(events);
    var s := After(events).value;
    assert ThreadOk(s, t);
    assert HoldsAdapter(s.At(t), s.At(t).a);
    forall u | u != t && s.At(u).Using?
      ensures s.At(u).a != s.At(t).a
    {
      assert ThreadOk(s, u);
      assert HoldsAdapter(s.At(u), s.At(u).a);
    }
  }

  /** In every run each adapter is closed at most once, and never while a thread uses it or the cache has it. */
  lemma {:induction false} ClosedOnce(events: seq<Event>, a: Adapter)
    requires After(events).Some?
    ensures var s := After(events).value;
            && s.closes[a] <= 1
            && (s.Closed(a) ==> a < |s.names| && (forall n :: n in s.cache ==> s.cache[n] != a)
                                && forall t :: s.At(t).Using? ==> s.At(t).a != a)
  {
    hide After, OpenOk, LocksOk;
    RunKeeps(events);
    var s := After(events).value;
    forall t | s.At(t).Using?
      ensures s.At(t).a != a || !s.Closed(a)
    {
      assert ThreadOk(s, t);
    }
  }

  /** In every run at most one adapter of a name is open at any time. */
  lemma {:induction false} OneOpenPerName(events: seq<Event>, a: Adapter, b: Adapter)
    requires After(events).Some?
    requires var s := After(events).value;
             a < |s.names| && b < |s.names| && s.names[a] == s.names[b] && !s.Closed(a) && !s.Closed(b)
    ensures a == b
  {
    hide After, LocksOk;
    RunKeeps(events);
    var s := After(events).value;
    if s.writer.Some? { assert ThreadOk(s, s.writer.value); }
  }

  // ---------------------------------------------------------------- what a call achieves

  /** The adapters opened under a name are all closed, each once, and the name is free. */
  ghost predicate Gone(s: State, name: string) {
    name !in s.cache && forall a | 0 <= a < |s.names| && s.names[a] == name :: s.closes[a] == 1
  }

  /** In every run, a thread about to return from releasing a name has closed what was open under it. */
  lemma {:induction false} Released(events: seq<Event>, t: Thread)
    requires After(events).Some? && After(events).value.At(t).RelDone?
    ensures Gone(After(events).value, After(events).value.At(t).name)
  {
    hide After, LocksOk;
    RunKeeps(events);
    assert ThreadOk(After(events).value, t);
  }

  predicate Finding(pc: PC) { FindsShared(pc) || FindsAlone(pc) }

  /** Where thread t is after the first k events of a run. */
  function PcAt(events: seq<Event>, k: nat, t: Thread): PC
    requires k <= |events|
  {
    match After(events[..k])
    case None => Idle
    case Some(s) => s.At(t)
  }

  /** Thread t made a call at event i and has been in it since. */
  ghost predicate InCall(events: seq<Event>, i: nat, t: Thread, call: Choice) {
    && After(events).Some? && i < |events|
    && PcAt(events, i, t) == Idle && events[i] == Event(t, call)
    && (forall k | i < k < |events| :: PcAt(events, k, t) != Idle && !PcAt(events, k, t).Using?)
  }

  /** Since event i, opening the adapter of that name failed for thread t. */
  ghost predicate OpenFailed(events: seq<Event>, i: nat, t: Thread, name: string) {
    exists k :: i < k < |events| && PcAt(events, k, t) == FindOpen(name) && events[k] == Event(t, Fail)
  }

  lemma {:induction false} LastStep(events: seq<Event>, t: Thread)
    requires events != [] && After(events).Some?
    ensures var before, e := events[..|events| - 1], events[|events| - 1];
            && After(before).Some? && Next(After(before).value, e.thread, e.choice) == After(events)
            && (e.thread != t ==> After(events).value.At(t) == After(before).value.At(t))
    ensures events[..|events|] == events
    ensures forall k: nat | k < |events| :: PcAt(events, k, t) == PcAt(events[..|events| - 1], k, t)
  {
    hide Next;
    var before, e := events[..|events| - 1], events[|events| - 1];
    if e.thread != t {
      OthersStay(After(before).value, e.thread, e.choice, t);
    }
    forall k: nat | k < |events|
      ensures PcAt(events, k, t) == PcAt(before, k, t)
    {
      assert before[..k] == events[..k];
    }
  }

  /** A step changes the position of one thread only. */
  lemma {:induction false} OthersStay(s: State, t: Thread, c: Choice, u: Thread)
    requires Next(s, t, c).Some? && u != t
    ensures Next(s, t, c).value.At(u) == s.At(u)
  {
    hide FindShared, FindAlone, Releases;
    var pc := s.At(t);
    if FindsShared(pc) {
      SharedStay(s, t, pc, u);
    } else if Releasing(pc) {
      ReleaseStay(s, t, pc, u);
    } else if FindsAlone(pc) {
      AloneStay(s, t, pc, c, u);
    }
  }

  lemma SharedStay(s: State, t: Thread, pc: PC, u: Thread)
    requires FindsShared(pc) && FindShared(s, t, pc).Some? && u != t
    ensures FindShared(s, t, pc).value.At(u) == s.At(u)
  {
  }

  lemma AloneStay(s: State, t: Thread, pc: PC, c: Choice, u: Thread)
    requires FindsAlone(pc) && FindAlone(s, t, pc, c).Some? && u != t
    ensures FindAlone(s, t, pc, c).value.At(u) == s.At(u)
  {
  }

  lemma ReleaseStay(s: State, t: Thread, pc: PC, u: Thread)
    requires Releasing(pc) && Releases(s, t, pc).Some? && u != t
    ensures Releases(s, t, pc).value.At(u) == s.At(u)
  {
  }

  lemma {:induction false} EarlierCall(events: seq<Event>, i: nat, t: Thread, call: Choice)
    requires InCall(events, i, t, call) && i < |events| - 1
    ensures InCall(events[..|events| - 1], i, t, call)
  {
    hide After, Next, PcAt;
    LastStep(events, t);
    var before := events[..|events| - 1];
    forall k | i < k < |before|
      ensures PcAt(before, k, t) != Idle && !PcAt(before, k, t).Using?
    {
      assert PcAt(before, k, t) == PcAt(events, k, t);
    }
    assert PcAt(before, i, t) == Idle && before[i] == events[i];
  }

  lemma SharedNext(s: State, t: Thread, pc: PC)
    requires FindsShared(pc) && FindShared(s, t, pc).Some?
    ensures var pc' := FindShared(s, t, pc).value.At(t);
            (Finding(pc') || pc'.Using?) && pc'.name == pc.name && !pc'.FindFailed?
  {
  }

  lemma AloneNext(s: State, t: Thread, pc: PC, c: Choice)
    requires FindsAlone(pc) && FindAlone(s, t, pc, c).Some?
    ensures var pc' := FindAlone(s, t, pc, c).value.At(t);
            && (pc'.Idle? <==> pc.FindFailed?)
            && (!pc'.Idle? ==> (Finding(pc') || pc'.Using?) && pc'.name == pc.name)
            && (pc'.FindFailed? <==> pc.FindOpen? && c == Fail)
  {
  }

  /** One step of a find. */
  lemma {:induction false} FindingNext(s: State, t: Thread, c: Choice)
    requires Finding(s.At(t)) && Next(s, t, c).Some?
    ensures var pc, pc' := s.At(t), Next(s, t, c).value.At(t);
            && (pc'.Idle? <==> pc.FindFailed?)
            && (!pc'.Idle? ==> (Finding(pc') || pc'.Using?) && pc'.name == pc.name)
            && (pc'.FindFailed? <==> pc == FindOpen(pc.name) && c == Fail)
  {
    hide FindShared, FindAlone, Releases;
    if FindsShared(s.At(t)) {
      SharedNext(s, t, s.At(t));
    } else {
      AloneNext(s, t, s.At(t), c);
    }
  }

  lemma ReleasingNext(s: State, t: Thread, c: Choice)
    requires Releasing(s.At(t)) && Next(s, t, c).Some?
    ensures var pc, s' := s.At(t), Next(s, t, c).value;
            var pc' := s'.At(t);
            && (pc'.Idle? <==> pc.RelDone?)
            && (!pc'.Idle? ==> Releasing(pc') && pc'.name == pc.name)
            && (pc'.Idle? ==> s'.cache == s.cache && s'.names == s.names && s'.closes == s.closes)
  {
    hide FindShared, FindAlone;
  }

  lemma CallStarts(s: State, t: Thread, c: Choice)
    requires s.At(t) == Idle && Next(s, t, c).Some?
    ensures c.Find? ==> Next(s, t, c).value.At(t) == FindRLock(c.name)
    ensures c.Release? ==> Next(s, t, c).value.At(t) == RelWLock(c.name)
  {
    hide FindShared, FindAlone, Releases;
  }

  /** In every run, a find comes back without an adapter exactly when OpenAdapter failed during it; otherwise it is under
      way or has come back with an adapter, for the name it was asked for. */
  lemma {:induction false} FindEnds(events: seq<Event>, i: nat, t: Thread, name: string)
    requires InCall(events, i, t, Find(name))
    ensures var pc := After(events).value.At(t);
            && (pc.Idle? || pc.FindFailed? <==> OpenFailed(events, i, t, name))
            && (!pc.Idle? ==> (Finding(pc) || pc.Using?) && pc.name == name)
    decreases |events|
  {
    hide After, Next, Finding;
    LastStep(events, t);
    var n := |events| - 1;
    var before, e := events[..n], events[n];
    var s := After(before).value;
    assert PcAt(events, n, t) == s.At(t);
    if i == n {
      CallStarts(s, t, Find(name));
      FirstIsFinding(name);
    } else {
      EarlierCall(events, i, t, Find(name));
      FindEnds(before, i, t, name);
      FailedSince(events, i, t, name);
      if e.thread == t {
        FindingNext(s, t, e.choice);
      }
    }
  }

  lemma FirstIsFinding(name: string)
    ensures Finding(FindRLock(name))
  {
  }

  lemma {:induction false} FailedSince(events: seq<Event>, i: nat, t: Thread, name: string)
    requires i < |events| - 1 && After(events).Some?
    ensures OpenFailed(events, i, t, name)
       <==> OpenFailed(events[..|events| - 1], i, t, name)
            || (PcAt(events, |events| - 1, t) == FindOpen(name) && events[|events| - 1] == Event(t, Fail))
  {
    hide After, Next, PcAt;
    LastStep(events, t);
    var n := |events| - 1;
    var before := events[..n];
    forall k | i < k < n
      ensures PcAt(before, k, t) == PcAt(events, k, t) && before[k] == events[k]
    {
    }
    if OpenFailed(events, i, t, name) {
      var k :| i < k < |events| && PcAt(events, k, t) == FindOpen(name) && events[k] == Event(t, Fail);
      assert k < n ==> PcAt(before, k, t) == FindOpen(name) && before[k] == Event(t, Fail);
    }
    if OpenFailed(before, i, t, name) {
      var k :| i < k < n && PcAt(before, k, t) == FindOpen(name) && before[k] == Event(t, Fail);
      assert PcAt(events, k, t) == FindOpen(name) && events[k] == Event(t, Fail);
    }
  }

  /** In every run, when the release of a name comes back, every adapter ever opened under it is closed, once, and the next
      find will open another. */
  lemma {:induction false} ReleaseEnds(events: seq<Event>, i: nat, t: Thread, name: string)
    requires InCall(events, i, t, Release(name))
    ensures var pc := After(events).value.At(t);
            && (pc.Idle? ==> Gone(After(events).value, name))
            && (!pc.Idle? ==> Releasing(pc) && pc.name == name)
    decreases |events|
  {
    hide After, Next, Releasing, Gone;
    LastStep(events, t);
    var n := |events| - 1;
    var before, e := events[..n], events[n];
    var s := After(before).value;
    assert PcAt(events, n, t) == s.At(t);
    if i == n {
      CallStarts(s, t, Release(name));
      FirstIsReleasing(name);
    } else {
      EarlierCall(events, i, t, Release(name));
      ReleaseEnds(before, i, t, name);
      if e.thread == t {
        ReleasingNext(s, t, e.choice);
        if s.At(t).RelDone? {
          Released(before, t);
          SameGone(s, After(events).value, name);
        }
      }
    }
  }

  lemma FirstIsReleasing(name: string)
    ensures Releasing(RelWLock(name))
  {
  }

  lemma SameGone(s: State, s': State, name: string)
    requires s'.cache == s.cache && s'.names == s.names && s'.closes == s.closes && Gone(s, name)
    ensures Gone(s', name)
  {
  }

  // ---------------------------------------------------------------- no deadlock

  ghost predicate CanMove(s: State, t: Thread) { exists c :: Next(s, t, c).Some? }

  /** A thread that waits for nothing. */
  predicate Ready(pc: PC) {
    !pc.Idle? && !pc.FindRLock? && !pc.FindRWait? && !pc.FindWLock? && !pc.FindWPending? && !pc.FindWWait?
    && !pc.RelWLock? && !pc.RelPending? && !pc.RelWait?
  }

  lemma ReadyMoves(s: State, t: Thread)
    requires Ready(s.At(t))
    ensures CanMove(s, t)
  {
    assert Next(s, t, Succeed).Some?;
  }

  /** Whoever holds an adapter's lock waits for nothing. */
  lemma HolderIsReady(pc: PC, a: Adapter)
    requires HoldsAdapter(pc, a)
    ensures Ready(pc)
  {
  }

  /** A thread that waits for an adapter moves, or the adapter's holder does. */
  lemma {:induction false} AdapterWaiter(s: State, t: Thread) returns (u: Thread)
    requires Inv(s) && (s.At(t).FindRWait? || s.At(t).FindWWait? || s.At(t).RelWait?)
    ensures CanMove(s, u) && !s.At(u).Idle?
  {
    hide CacheOk, OpenOk, LocksOk, Next, Ready;
    var a := s.At(t).a;
    if a !in s.locks {
      u := t;
      FreeAdapterMoves(s, t);
    } else {
      u := s.locks[a];
      assert ThreadOk(s, u);
      assert HoldsAdapter(s.At(u), a);
      HolderIsReady(s.At(u), a);
      ReadyMoves(s, u);
      ReadyIsBusy(s.At(u));
    }
  }

  lemma FreeAdapterMoves(s: State, t: Thread)
    requires (s.At(t).FindRWait? || s.At(t).FindWWait? || s.At(t).RelWait?) && s.At(t).a !in s.locks
    ensures CanMove(s, t)
  {
    assert Next(s, t, Succeed).Some?;
  }

  lemma ReadyIsBusy(pc: PC)
    requires Ready(pc)
    ensures !pc.Idle?
  {
  }

  /** A thread inside the map's lock, as reader or writer, moves or waits for an adapter. */
  lemma {:induction false} Insider(s: State, t: Thread) returns (u: Thread)
    requires Inv(s) && (HoldsRead(s.At(t)) || HoldsWrite(s.At(t)))
    ensures CanMove(s, u) && !s.At(u).Idle?
  {
    hide Inv, Next;
    if s.At(t).FindRWait? || s.At(t).FindWWait? || s.At(t).RelWait? {
      u := AdapterWaiter(s, t);
    } else {
      u := t;
      ReadyMoves(s, t);
    }
  }

  /** A writer at the door moves, or a reader inside does. */
  lemma {:induction false} WriterAtDoor(s: State, t: Thread) returns (u: Thread)
    requires Inv(s) && Waits(s.At(t))
    ensures CanMove(s, u) && !s.At(u).Idle?
  {
    hide CacheOk, OpenOk, HoldsRead, HoldsWrite;
    if s.readers == {} {
      u := t;
      assert Next(s, t, Succeed).Some?;
    } else {
      var r :| r in s.readers;
      assert ThreadOk(s, r);
      u := Insider(s, r);
    }
  }

  /** A thread outside the map's lock moves, or the writer that keeps it out does, or those that keep that one out. */
  lemma {:induction false} Outsider(s: State, t: Thread) returns (u: Thread)
    requires Inv(s) && (s.At(t).FindRLock? || s.At(t).FindWLock? || s.At(t).RelWLock?)
    ensures CanMove(s, u) && !s.At(u).Idle?
  {
    hide CacheOk, OpenOk, HoldsRead, HoldsWrite, Waits;
    if s.writer.Some? {
      assert ThreadOk(s, s.writer.value);
      u := Insider(s, s.writer.value);
    } else if s.pending.Some? {
      assert ThreadOk(s, s.pending.value);
      u := WriterAtDoor(s, s.pending.value);
    } else {
      u := t;
      assert Next(s, t, Succeed).Some?;
    }
  }

  /** In every run, as long as a call is under way or an adapter is in use, some such thread can move. Users unlock by
      themselves: they wait for nothing. */
  lemma {:induction false} NoDeadlock(events: seq<Event>, t: Thread) returns (u: Thread)
    requires After(events).Some? && !After(events).value.At(t).Idle?
    ensures CanMove(After(events).value, u) && !After(events).value.At(u).Idle?
  {
    hide After, Inv, CanMove;
    RunKeeps(events);
    var s := After(events).value;
    if s.At(t).FindRLock? || s.At(t).FindWLock? || s.At(t).RelWLock? {
      u := Outsider(s, t);
    } else if Waits(s.At(t)) {
      u := WriterAtDoor(s, t);
    } else if s.At(t).Using? {
      u := t;
      ReadyMoves(s, t);
    } else {
      u := Insider(s, t);
    }
  }
}
