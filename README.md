# ReaderWriterLock, modelled in Dafny

log4j's `org.apache.log4j.helpers.ReaderWriterLock` is a monitor with three
counters: `readers` (callers holding a read lock), `writers` (callers holding
the write lock) and `waitingWriters` (callers inside `getWriteLock` that have
not been admitted yet). Many readers may hold the lock together and one
writer may hold it alone. A registered writer keeps new readers out
(writer priority). The lock is not reentrant.

The model has two modules.

- `LockSpec` is the lock as a transition system. Each pass through a
  `synchronized` method body is one atomic `Step`:
  - `TryRead`: one pass of `getReadLock`.
  - `EndRead`: `releaseReadLock`.
  - `Register` and `TryWrite`: `getWriteLock`, split at the point where it
    blocks after announcing the writer.
  - `EndWrite`: `releaseWriteLock`.
  - `Interrupt`: a suspended caller leaves `wait()` without being notified.

  A pass whose `while` guard is true suspends the caller and changes no
  counter. `notifyAll()` wakes every suspended caller. Beside the counters,
  the state `System` holds ghost bookkeeping that the lock does not store:
  each caller's `Phase` (`Idle`, `WaitingWrite`, `HoldRead`, `HoldWrite`)
  and the set of suspended callers. `Inv` holds three facts:
  - the counters count the callers in each phase;
  - the counters are `Safe`: at most one writer, never together with a
    reader, and no counter negative;
  - no suspended caller has a true guard, so no wake-up is lost.

  Every step preserves `Inv`. The properties of runs follow from it: writer
  priority, readers sharing the lock, and the self-deadlock that
  non-reentrancy allows.
- `Helpers` holds the class `ReaderWriterLock`. Its fields are the three
  counters plus the ghost bookkeeping. It has one method per atomic step,
  and each method states that its effect is `LockSpec.Next` of the step it
  performs. The guard functions `CanGrantRead` and `CanGrantWrite` state
  what the guards mean in terms of callers. Five small client methods
  replay concrete scenarios:
  - two readers;
  - a writer waiting for a reader;
  - a reader waiting for a writer;
  - a writer waiting for a writer;
  - a write holder asking for a read lock.

When they call, callers pass a ghost `Caller` name. The lock records nobody's
identity, so a thread that asks again while it already holds a lock appears
as a second caller. That is how the lock itself treats such a thread.

## Model

| member | source | states |
|---|---|---|
| `LockSpec.InitialInv` | src/java/org/apache/log4j/helpers/ReaderWriterLock.java:84-94 | a new lock has all three counters at zero and satisfies the invariant |
| `LockSpec.NextKeepsInv` | src/java/org/apache/log4j/helpers/ReaderWriterLock.java:96-156 | every allowed atomic step keeps the invariant: counters equal the number of callers in each phase; at most one writer and never alongside a reader; no negative counter; every suspended caller's guard is false |
| `LockSpec.RunKeepsInv` | src/java/org/apache/log4j/helpers/ReaderWriterLock.java:83-156 | the invariant holds after any sequence of allowed steps |
| `LockSpec.ReachableSafe` | src/java/org/apache/log4j/helpers/ReaderWriterLock.java:57-58 | every state reachable from a new lock has `writers <= 1`, no reader while a writer holds, and non-negative counters |
| `LockSpec.MutualExclusion` | src/java/org/apache/log4j/helpers/ReaderWriterLock.java:57-58 | when a caller holds the write lock, no other caller holds it and no caller holds a read lock |
| `LockSpec.ReadGuardMeaning` | src/java/org/apache/log4j/helpers/ReaderWriterLock.java:101 | the read guard is open exactly when no caller holds or waits for the write lock (both directions) |
| `LockSpec.WriteGuardMeaning` | src/java/org/apache/log4j/helpers/ReaderWriterLock.java:134 | the write guard is open exactly when no caller holds a read or the write lock (both directions) |
| `LockSpec.ReleaseReadWake` | src/java/org/apache/log4j/helpers/ReaderWriterLock.java:120-124 | releasing a read lock notifies exactly when some caller is registered as a writer; when it does not notify, new readers are admitted afterwards; either way no caller stays suspended whose guard holds |
| `LockSpec.ReadersShare` | src/java/org/apache/log4j/helpers/ReaderWriterLock.java:101-112 | from a state admitting readers, any run of read attempts grants every one of them at once; `readers` grows by the run's length, the other counters and the set of suspended callers are unchanged, and every caller outside the run keeps its phase |
| `LockSpec.WriterPriority` | src/java/org/apache/log4j/helpers/ReaderWriterLock.java:96-146 | while a registered writer has not been granted (any number of its passes through the wait loop may find the guard closed), it stays registered, the read guard stays closed, `readers` does not grow and no new caller obtains a read lock |
| `LockSpec.WriteHolderBlocksAll` | src/java/org/apache/log4j/helpers/ReaderWriterLock.java:63-67 | while the write holder does not release, it keeps the lock, both guards stay closed and nobody else holds any lock; so a read request from the holder's own thread cannot succeed |
| `LockSpec.ReadHolderBlocksWriters` | src/java/org/apache/log4j/helpers/ReaderWriterLock.java:63-67 | while a read holder does not release, it keeps its read lock, the write guard stays closed and nobody holds the write lock; so a write request from the holder's own thread cannot succeed |
| `LockSpec.BlockedStepStutters` | src/java/org/apache/log4j/helpers/ReaderWriterLock.java:101-106 | a read or write pass whose guard is closed, or an interrupted wait, changes no counter and no phase; the caller only falls asleep or wakes to check the guard again |
| `Helpers.ReaderWriterLock.constructor` | src/java/org/apache/log4j/helpers/ReaderWriterLock.java:84-94 | a new lock has `readers == writers == waitingWriters == 0` and satisfies the invariant |
| `Helpers.ReaderWriterLock.CanGrantRead` | src/java/org/apache/log4j/helpers/ReaderWriterLock.java:101 | `writers == 0 && waitingWriters == 0`, which under the invariant means no caller holds or waits for the write lock |
| `Helpers.ReaderWriterLock.CanGrantWrite` | src/java/org/apache/log4j/helpers/ReaderWriterLock.java:134 | `readers == 0 && writers == 0`, which under the invariant means no caller holds any lock |
| `Helpers.ReaderWriterLock.GetReadLock` | src/java/org/apache/log4j/helpers/ReaderWriterLock.java:96-113 | granted exactly when the read guard is open; then `readers` grows by one and the caller holds a read lock; otherwise the caller is suspended; `writers` and `waitingWriters` are unchanged; the invariant is kept |
| `Helpers.ReaderWriterLock.ReleaseReadLock` | src/java/org/apache/log4j/helpers/ReaderWriterLock.java:115-125 | `readers` drops by one and the other counters are unchanged; it wakes everybody exactly when `waitingWriters > 0`, that is, when some writer is registered |
| `Helpers.ReaderWriterLock.RegisterWriter` | src/java/org/apache/log4j/helpers/ReaderWriterLock.java:127-132 | `waitingWriters` grows by one and the other counters are unchanged; afterwards the read guard is closed |
| `Helpers.ReaderWriterLock.GrantWrite` | src/java/org/apache/log4j/helpers/ReaderWriterLock.java:134-147 | granted exactly when the write guard is open; then `waitingWriters` drops by one, `writers` grows by one and the caller holds the write lock; otherwise the caller is suspended with the counters unchanged; `readers` is unchanged |
| `Helpers.ReaderWriterLock.ReleaseWriteLock` | src/java/org/apache/log4j/helpers/ReaderWriterLock.java:149-156 | `writers` drops to zero and the other counters are unchanged; every suspended caller is always woken |
| `Helpers.ReaderWriterLock.InterruptWait` | src/java/org/apache/log4j/helpers/ReaderWriterLock.java:102-105 | an interrupted wait leaves every counter and phase unchanged; the caller is no longer suspended, so it re-checks its guard |

## Left out

- Tracing: the `PrintWriter` field and `printMessage` are output only and change no counter. The constructor taking a `PrintWriter` therefore builds the same state as the one without, and only the latter is modelled.
- Monitor mechanics: the model has no `synchronized`, no real `wait()`/`notifyAll()` and no thread scheduler. Each method body is one atomic step, and a notify empties the set of suspended callers. Liveness and starvation-freedom depend on the scheduler and are not stated.
- Atomicity of `getWriteLock`: the increment of `waitingWriters` and the first check of the write guard are one critical section in the source. The model takes them as two steps (`RegisterWriter`, then `GrantWrite`). Other steps may therefore come between them. This only adds behaviours, so the safety results cover the source.
- Woken readers: after waking, a caller in `getReadLock` is `Idle` in the model. It may take any step allowed to an idle caller, not only a new pass of `getReadLock`. This too only adds behaviours.
- Misuse: releasing a lock that is not held drives a counter negative in the source. The release methods require the caller to hold the lock instead.
- Integer width: the counters are unbounded integers. Java `int` wrap-around would need about 2^31 simultaneous callers and is not modelled.
- Interruption: the source swallows `InterruptedException` and waits again. The model follows that code, not the alternative of propagating the interruption to the caller.
