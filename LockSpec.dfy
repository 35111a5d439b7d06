/**
 The state machine behind log4j's `ReaderWriterLock`: three counters that are
 only changed inside the lock's monitor, seen as a transition system in which
 every pass through a `synchronized` method body is one atomic step.

 Beside the counters the model keeps two pieces of bookkeeping that the lock
 itself does not store: the phase of every caller (idle, registered as a
 writer, holding a read lock, holding the write lock) and the set of callers
 that are suspended in `wait()`. The invariant `Inv` ties the counters to the
 phases, and every theorem below is stated in terms of them.
 */
module LockSpec {

  /** A caller of the lock. The lock records nobody's identity, so a thread
      that asks again while it already holds a lock is a second, independent
      caller here, exactly as it is to the lock. */
  type Caller = nat

  /** Where one caller stands with respect to the lock. A caller that is
      blocked in `getReadLock` holds nothing and has registered nothing, so
      it is `Idle` (and in `asleep` while it is suspended). */
  datatype Phase = Idle | WaitingWrite | HoldRead | HoldWrite

  /** The three fields of the lock. */
  datatype Counters = Counters(readers: int, writers: int, waitingWriters: int)

  /** The counters together with the bookkeeping the proofs need. */
  datatype System = System(counters: Counters, phases: map<Caller, Phase>, asleep: set<Caller>)

  /** One atomic step of one caller: a pass through a monitor method. */
  datatype Step =
    | TryRead(t: Caller)     // one pass of getReadLock: grant, or wait
    | EndRead(t: Caller)     // releaseReadLock
    | Register(t: Caller)    // the first half of getWriteLock: announce the writer
    | TryWrite(t: Caller)    // one pass of getWriteLock's loop: grant, or wait
    | EndWrite(t: Caller)    // releaseWriteLock
    | Interrupt(t: Caller)   // a suspended caller leaves wait() without a notify

  function PhaseOf(m: map<Caller, Phase>, t: Caller): Phase
  {
    if t in m then m[t] else Idle
  }

  /** A reader may be admitted: no writer holds the lock and none is waiting. */
  predicate ReadEnabled(c: Counters)
  {
    c.writers == 0 && c.waitingWriters == 0
  }

  /** A registered writer may be admitted: nobody holds the lock. */
  predicate WriteEnabled(c: Counters)
  {
    c.readers == 0 && c.writers == 0
  }

  /** Whether the step, taken in a state with counters `c`, ends with
      `notifyAll()`: releasing a read lock does so only when some writer is
      registered, releasing the write lock always does, nothing else does. */
  predicate Notifies(c: Counters, step: Step)
  {
    match step
    case EndRead(_) => c.waitingWriters > 0
    case EndWrite(_) => true
    case _ => false
  }

  /** A freshly constructed lock. */
  function Initial(): System
  {
    System(Counters(0, 0, 0), map[], {})
  }

  /** What a caller must respect before taking a step: it must be running
      (not suspended) to enter a method, it releases only what it holds, and
      it continues getWriteLock only after registering. */
  predicate Allowed(s: System, step: Step)
  {
    match step
    case TryRead(t) => PhaseOf(s.phases, t) == Idle && t !in s.asleep
    case Register(t) => PhaseOf(s.phases, t) == Idle && t !in s.asleep
    case TryWrite(t) => PhaseOf(s.phases, t) == WaitingWrite && t !in s.asleep
    case EndRead(t) => PhaseOf(s.phases, t) == HoldRead
    case EndWrite(t) => PhaseOf(s.phases, t) == HoldWrite
    case Interrupt(t) => t in s.asleep
  }

  /** The effect of one atomic step. A guard that fails suspends the caller
      and leaves the counters as they were; a notify wakes every suspended
      caller. */
  function Next(s: System, step: Step): System
    requires Allowed(s, step)
  {
    var c := s.counters;
    var woken := if Notifies(c, step) then {} else s.asleep;
    match step
    case TryRead(t) =>
      if ReadEnabled(c) then s.(counters := c.(readers := c.readers + 1), phases := s.phases[t := HoldRead])
      else s.(asleep := s.asleep + {t})
    case EndRead(t) =>
      System(c.(readers := c.readers - 1), s.phases[t := Idle], woken)
    case Register(t) =>
      s.(counters := c.(waitingWriters := c.waitingWriters + 1), phases := s.phases[t := WaitingWrite])
    case TryWrite(t) =>
      if WriteEnabled(c) then
        s.(counters := c.(waitingWriters := c.waitingWriters - 1, writers := c.writers + 1),
           phases := s.phases[t := HoldWrite])
      else s.(asleep := s.asleep + {t})
    case EndWrite(t) =>
      System(c.(writers := c.writers - 1), s.phases[t := Idle], woken)
    case Interrupt(t) =>
      s.(asleep := s.asleep - {t})
  }

  /** The callers in phase `p`. */
  ghost function Cohort(m: map<Caller, Phase>, p: Phase): set<Caller>
  {
    set t | t in m && m[t] == p
  }

  /** The counters count the callers in each phase. */
  ghost predicate Accounted(s: System)
  {
    && s.counters.readers == |Cohort(s.phases, HoldRead)|
    && s.counters.writers == |Cohort(s.phases, HoldWrite)|
    && s.counters.waitingWriters == |Cohort(s.phases, WaitingWrite)|
  }

  /** The class comment's promise: at most one writer, never together with a
      reader, and no counter below zero. */
  predicate Safe(c: Counters)
  {
    && 0 <= c.readers
    && 0 <= c.waitingWriters
    && 0 <= c.writers <= 1
    && (c.writers > 0 ==> c.readers == 0)
  }

  /** No lost wake-up: a caller stays suspended only while its own guard is
      false, so whenever a waiter could proceed it has been woken. */
  ghost predicate SleepersBlocked(s: System)
  {
    forall t :: t in s.asleep ==>
      || (PhaseOf(s.phases, t) == Idle && !ReadEnabled(s.counters))
      || (PhaseOf(s.phases, t) == WaitingWrite && !WriteEnabled(s.counters))
  }

  ghost predicate Inv(s: System)
  {
    Accounted(s) && Safe(s.counters) && SleepersBlocked(s)
  }

  /** Whether `steps` can be taken one after another from `s`. */
  predicate ValidRun(s: System, steps: seq<Step>)
    decreases |steps|
  {
    steps == [] || (Allowed(s, steps[0]) && ValidRun(Next(s, steps[0]), steps[1..]))
  }

  /** The state after taking `steps` from `s`. */
  function Final(s: System, steps: seq<Step>): System
    requires ValidRun(s, steps)
    decreases |steps|
  {
    if steps == [] then s else Final(Next(s, steps[0]), steps[1..])
  }

  // ---------------------------------------------------------------------
  // Counting callers

  /** Moving caller `t` to phase `q` takes it out of every cohort but that of
      `q`. */
  lemma CohortAfter(m: map<Caller, Phase>, t: Caller, q: Phase, p: Phase)
    requires p != Idle
    ensures Cohort(m[t := q], p) == (Cohort(m, p) - {t}) + (if q == p then {t} else {})
  {
  }

  /** Moving caller `t` to phase `q` changes the size of cohort `p` by the
      caller entering or leaving it. */
  lemma {:induction false} CohortUpdate(m: map<Caller, Phase>, t: Caller, q: Phase, p: Phase)
    requires p != Idle
    ensures |Cohort(m[t := q], p)| ==
            |Cohort(m, p)| - (if PhaseOf(m, t) == p then 1 else 0) + (if q == p then 1 else 0)
  {
    var before := Cohort(m, p);
    var rest := before - {t};
    CohortAfter(m, t, q, p);
    assert t !in rest;
    assert t in before <==> PhaseOf(m, t) == p;
    if t in before {
      assert before == rest + {t};
      assert |before| == |rest| + 1;
    } else {
      assert before == rest;
    }
    if q == p {
      assert |rest + {t}| == |rest| + 1;
    }
  }

  /** A phase other than `Idle` is occupied exactly when its cohort is not
      empty. */
  lemma CohortEmpty(m: map<Caller, Phase>, p: Phase)
    requires p != Idle
    ensures |Cohort(m, p)| == 0 <==> forall t :: PhaseOf(m, t) != p
  {
    if |Cohort(m, p)| == 0 {
      forall t ensures PhaseOf(m, t) != p {
        assert t !in Cohort(m, p);
      }
    } else {
      var t :| t in Cohort(m, p);
      assert PhaseOf(m, t) == p;
    }
  }

  /** Cohort sizes after a step in which caller `t` goes to phase `q`. */
  lemma Recount(m: map<Caller, Phase>, t: Caller, q: Phase)
    ensures |Cohort(m[t := q], HoldRead)| ==
            |Cohort(m, HoldRead)| - (if PhaseOf(m, t) == HoldRead then 1 else 0) + (if q == HoldRead then 1 else 0)
    ensures |Cohort(m[t := q], HoldWrite)| ==
            |Cohort(m, HoldWrite)| - (if PhaseOf(m, t) == HoldWrite then 1 else 0) + (if q == HoldWrite then 1 else 0)
    ensures |Cohort(m[t := q], WaitingWrite)| ==
            |Cohort(m, WaitingWrite)| - (if PhaseOf(m, t) == WaitingWrite then 1 else 0) + (if q == WaitingWrite then 1 else 0)
  {
    CohortUpdate(m, t, q, HoldRead);
    CohortUpdate(m, t, q, HoldWrite);
    CohortUpdate(m, t, q, WaitingWrite);
  }

  // ---------------------------------------------------------------------
  // The invariant

  /** A new lock satisfies the invariant. */
  lemma InitialInv()
    ensures Inv(Initial())
    ensures Initial().counters == Counters(0, 0, 0)
  {
  }

  /** Every allowed step keeps the invariant: the guards of the wait loops in
      getReadLock and getWriteLock keep the lock exclusive, and the notifyAll
      calls in releaseReadLock and releaseWriteLock lose no wake-up. */
  lemma NextKeepsInv(s: System, step: Step)
    requires Inv(s) && Allowed(s, step)
    ensures Inv(Next(s, step))
  {
    var c := s.counters;
    var s' := Next(s, step);
    match step
    case TryRead(t) =>
      Recount(s.phases, t, HoldRead);
    case EndRead(t) =>
      Recount(s.phases, t, Idle);
      assert t in Cohort(s.phases, HoldRead);
      if !Notifies(c, step) {
        CohortEmpty(s.phases, WaitingWrite);
      }
    case Register(t) =>
      Recount(s.phases, t, WaitingWrite);
    case TryWrite(t) =>
      Recount(s.phases, t, HoldWrite);
      assert t in Cohort(s.phases, WaitingWrite);
    case EndWrite(t) =>
      Recount(s.phases, t, Idle);
      assert t in Cohort(s.phases, HoldWrite);
    case Interrupt(t) =>
  }

  /** The invariant holds after any run of allowed steps. */
  lemma {:induction false} RunKeepsInv(s: System, steps: seq<Step>)
    requires Inv(s) && ValidRun(s, steps)
    ensures Inv(Final(s, steps))
    decreases |steps|
  {
    if steps != [] {
      NextKeepsInv(s, steps[0]);
      RunKeepsInv(Next(s, steps[0]), steps[1..]);
    }
  }

  /** Every state reached from a new lock is safe. */
  lemma ReachableSafe(steps: seq<Step>)
    requires ValidRun(Initial(), steps)
    ensures Safe(Final(Initial(), steps).counters)
    ensures Inv(Final(Initial(), steps))
  {
    InitialInv();
    RunKeepsInv(Initial(), steps);
  }

  // ---------------------------------------------------------------------
  // Mutual exclusion and the meaning of the guards

  /** At most one caller holds the write lock, and no caller holds a read
      lock while it does. */
  lemma MutualExclusion(s: System, a: Caller, b: Caller)
    requires Inv(s) && PhaseOf(s.phases, a) == HoldWrite
    ensures PhaseOf(s.phases, b) == HoldWrite ==> a == b
    ensures PhaseOf(s.phases, b) != HoldRead
  {
    assert a in Cohort(s.phases, HoldWrite);
    if PhaseOf(s.phases, b) == HoldWrite && a != b {
      assert {a, b} <= Cohort(s.phases, HoldWrite);
      assert |{a, b}| == 2;
      SubsetSize({a, b}, Cohort(s.phases, HoldWrite));
      assert false;
    }
    assert PhaseOf(s.phases, b) == HoldRead ==> b in Cohort(s.phases, HoldRead);
  }

  lemma SubsetSize(a: set<Caller>, b: set<Caller>)
    requires a <= b
    ensures |a| <= |b|
  {
    assert b == a + (b - a);
  }

  /** The guard of getReadLock's wait loop, read in terms of callers: a reader is
      admitted exactly when no caller holds or waits for the write lock. */
  lemma ReadGuardMeaning(s: System)
    ensures Inv(s) ==>
      (ReadEnabled(s.counters) <==>
       forall t :: PhaseOf(s.phases, t) != HoldWrite && PhaseOf(s.phases, t) != WaitingWrite)
  {
    CohortEmpty(s.phases, HoldWrite);
    CohortEmpty(s.phases, WaitingWrite);
  }

  /** The guard of getWriteLock's wait loop, read in terms of callers: a registered
      writer is admitted exactly when no caller holds the lock. */
  lemma WriteGuardMeaning(s: System)
    ensures Inv(s) ==>
      (WriteEnabled(s.counters) <==>
       forall t :: PhaseOf(s.phases, t) != HoldRead && PhaseOf(s.phases, t) != HoldWrite)
  {
    CohortEmpty(s.phases, HoldRead);
    CohortEmpty(s.phases, HoldWrite);
  }

  /** Releasing a read lock notifies exactly when some caller is registered
      as a writer; when it does not, new readers are admitted afterwards, and
      either way nobody stays suspended whose guard holds. */
  lemma ReleaseReadWake(s: System, t: Caller)
    requires Inv(s) && PhaseOf(s.phases, t) == HoldRead
    ensures Notifies(s.counters, EndRead(t)) <==> exists u :: PhaseOf(s.phases, u) == WaitingWrite
    ensures !Notifies(s.counters, EndRead(t)) ==> ReadEnabled(Next(s, EndRead(t)).counters)
    ensures SleepersBlocked(Next(s, EndRead(t)))
  {
    NextKeepsInv(s, EndRead(t));
    CohortEmpty(s.phases, WaitingWrite);
    assert t in Cohort(s.phases, HoldRead);
  }

  // ---------------------------------------------------------------------
  // Properties of runs

  /** Readers do not block readers: from a state that admits readers, every
      caller in a run of read attempts is granted at once. */
  lemma {:induction false} ReadersShare(s: System, steps: seq<Step>)
    requires Inv(s) && ReadEnabled(s.counters) && ValidRun(s, steps)
    requires forall i :: 0 <= i < |steps| ==> steps[i].TryRead?
    ensures Final(s, steps).counters == s.counters.(readers := s.counters.readers + |steps|)
    ensures Final(s, steps).asleep == s.asleep
    ensures forall i :: 0 <= i < |steps| ==> PhaseOf(Final(s, steps).phases, steps[i].t) == HoldRead
    ensures forall u :: (forall i :: 0 <= i < |steps| ==> steps[i].t != u) ==>
              PhaseOf(Final(s, steps).phases, u) == PhaseOf(s.phases, u)
    decreases |steps|
  {
    if steps != [] {
      var s1 := Next(s, steps[0]);
      NextKeepsInv(s, steps[0]);
      assert forall i :: 0 <= i < |steps[1..]| ==> steps[1..][i] == steps[i + 1];
      ReadersShare(s1, steps[1..]);
      StaysReader(s1, steps[1..], steps[0].t);
    }
  }

  /** A reader keeps its read lock through any run without its own release. */
  lemma {:induction false} StaysReader(s: System, steps: seq<Step>, h: Caller)
    requires ValidRun(s, steps) && PhaseOf(s.phases, h) == HoldRead
    requires forall i :: 0 <= i < |steps| ==> steps[i] != EndRead(h)
    ensures PhaseOf(Final(s, steps).phases, h) == HoldRead
    decreases |steps|
  {
    if steps != [] {
      assert forall i :: 0 <= i < |steps[1..]| ==> steps[1..][i] == steps[i + 1];
      StaysReader(Next(s, steps[0]), steps[1..], h);
    }
  }

  /** Whether no pass of `w`'s wait loop in `steps` finds the write guard
      open, that is, whether `w` is not granted anywhere in the run. */
  predicate WriterNotGranted(s: System, steps: seq<Step>, w: Caller)
    requires ValidRun(s, steps)
    decreases |steps|
  {
    || steps == []
    || (&& (steps[0] == TryWrite(w) ==> !WriteEnabled(s.counters))
        && WriterNotGranted(Next(s, steps[0]), steps[1..], w))
  }

  /** Writer priority: once caller `w` has registered as a writer, no reader
      is admitted until `w` is granted, however often `w` is woken and finds
      its guard still closed. Throughout, `w` stays registered, the read guard
      stays false, and every caller holding a read lock at the end already
      held it at the start. */
  lemma {:induction false} WriterPriority(s: System, steps: seq<Step>, w: Caller)
    requires Inv(s) && PhaseOf(s.phases, w) == WaitingWrite && ValidRun(s, steps)
    requires WriterNotGranted(s, steps, w)
    ensures PhaseOf(Final(s, steps).phases, w) == WaitingWrite
    ensures !ReadEnabled(Final(s, steps).counters)
    ensures Final(s, steps).counters.readers <= s.counters.readers
    ensures forall t :: PhaseOf(Final(s, steps).phases, t) == HoldRead ==> PhaseOf(s.phases, t) == HoldRead
    decreases |steps|
  {
    ReadGuardMeaning(s);
    if steps != [] {
      var s1 := Next(s, steps[0]);
      NextKeepsInv(s, steps[0]);
      assert PhaseOf(s1.phases, w) == WaitingWrite;
      assert s1.counters.readers <= s.counters.readers;
      assert forall t :: PhaseOf(s1.phases, t) == HoldRead ==> PhaseOf(s.phases, t) == HoldRead;
      assert forall i :: 0 <= i < |steps[1..]| ==> steps[1..][i] == steps[i + 1];
      WriterPriority(s1, steps[1..], w);
    }
  }

  /** Non-reentrancy, writer side: while caller `h` holds the write lock and
      does not release it, nobody obtains any lock, so a read request that
      `h`'s own thread makes meanwhile can never be granted. */
  lemma {:induction false} WriteHolderBlocksAll(s: System, steps: seq<Step>, h: Caller)
    requires Inv(s) && PhaseOf(s.phases, h) == HoldWrite && ValidRun(s, steps)
    requires forall i :: 0 <= i < |steps| ==> steps[i] != EndWrite(h)
    ensures PhaseOf(Final(s, steps).phases, h) == HoldWrite
    ensures !ReadEnabled(Final(s, steps).counters) && !WriteEnabled(Final(s, steps).counters)
    ensures forall t :: PhaseOf(Final(s, steps).phases, t) != HoldRead
    ensures forall t :: PhaseOf(Final(s, steps).phases, t) == HoldWrite ==> t == h
    decreases |steps|
  {
    if steps == [] {
      assert h in Cohort(s.phases, HoldWrite);
      forall t ensures PhaseOf(s.phases, t) != HoldRead && (PhaseOf(s.phases, t) == HoldWrite ==> t == h) {
        MutualExclusion(s, h, t);
      }
    } else {
      var s1 := Next(s, steps[0]);
      NextKeepsInv(s, steps[0]);
      assert h in Cohort(s.phases, HoldWrite);
      assert PhaseOf(s1.phases, h) == HoldWrite;
      assert forall i :: 0 <= i < |steps[1..]| ==> steps[1..][i] == steps[i + 1];
      WriteHolderBlocksAll(s1, steps[1..], h);
    }
  }

  /** Non-reentrancy, reader side: while caller `h` holds a read lock and does
      not release it, no writer is admitted, so a write request that `h`'s
      own thread makes meanwhile can never be granted. */
  lemma {:induction false} ReadHolderBlocksWriters(s: System, steps: seq<Step>, h: Caller)
    requires Inv(s) && PhaseOf(s.phases, h) == HoldRead && ValidRun(s, steps)
    requires forall i :: 0 <= i < |steps| ==> steps[i] != EndRead(h)
    ensures PhaseOf(Final(s, steps).phases, h) == HoldRead
    ensures !WriteEnabled(Final(s, steps).counters)
    ensures forall t :: PhaseOf(Final(s, steps).phases, t) != HoldWrite
    decreases |steps|
  {
    StaysReader(s, steps, h);
    RunKeepsInv(s, steps);
    var f := Final(s, steps);
    assert h in Cohort(f.phases, HoldRead);
    forall t ensures PhaseOf(f.phases, t) != HoldWrite {
      if PhaseOf(f.phases, t) == HoldWrite {
        MutualExclusion(f, t, h);
      }
    }
  }

  /** A pass that finds its guard false, and an interrupted wait, change no
      counter and no phase: the caller only goes to sleep or wakes to check
      its guard again. */
  lemma BlockedStepStutters(s: System, step: Step)
    requires Allowed(s, step)
    requires || (step.TryRead? && !ReadEnabled(s.counters))
             || (step.TryWrite? && !WriteEnabled(s.counters))
             || step.Interrupt?
    ensures Next(s, step).counters == s.counters && Next(s, step).phases == s.phases
    ensures step.Interrupt? ==> Next(s, step).asleep == s.asleep - {step.t}
    ensures !step.Interrupt? ==> Next(s, step).asleep == s.asleep + {step.t}
  {
  }
}
