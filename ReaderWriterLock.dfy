/**
 The lock object of `org.apache.log4j.helpers.ReaderWriterLock`: the three
 counters as mutable fields, and one method per atomic pass through a
 `synchronized` method. A method whose guard is false returns `granted ==
 false`: the caller is then suspended in `wait()` and takes the same step
 again once it is woken. Each method is specified by the transition
 `LockSpec.Next` it performs, so the theorems of `LockSpec` apply to every
 sequence of calls.
 */
module Helpers {
  import opened LockSpec

  class ReaderWriterLock {
    var readers: int
    var writers: int
    var waitingWriters: int

    // Bookkeeping that the lock does not store: each caller's phase, and the
    // callers currently suspended in wait().
    ghost var phases: map<Caller, Phase>
    ghost var asleep: set<Caller>

    function Counts(): Counters
      reads this
    {
      Counters(readers, writers, waitingWriters)
    }

    ghost function Model(): System
      reads this
    {
      System(Counts(), phases, asleep)
    }

    ghost predicate Valid()
      reads this
    {
      Inv(Model())
    }

    /** Both constructors of the source leave every counter at zero. */
    constructor ()
      ensures Valid() && Model() == Initial()
      ensures readers == 0 && writers == 0 && waitingWriters == 0
    {
      readers, writers, waitingWriters := 0, 0, 0;
      phases, asleep := map[], {};
      InitialInv();
    }

    /** The guard of getReadLock's loop, negated: a reader may go ahead when
        no caller holds or waits for the write lock. */
    function CanGrantRead(): (r: bool)
      reads this
      ensures r == ReadEnabled(Counts())
      ensures Valid() ==>
        (r <==> forall t :: PhaseOf(phases, t) != HoldWrite && PhaseOf(phases, t) != WaitingWrite)
    {
      ReadGuardMeaning(Model());
      writers == 0 && waitingWriters == 0
    }

    /** The guard of getWriteLock's loop, negated: a registered writer may go
        ahead when no caller holds the lock. */
    function CanGrantWrite(): (r: bool)
      reads this
      ensures r == WriteEnabled(Counts())
      ensures Valid() ==>
        (r <==> forall t :: PhaseOf(phases, t) != HoldRead && PhaseOf(phases, t) != HoldWrite)
    {
      WriteGuardMeaning(Model());
      readers == 0 && writers == 0
    }

    /** One pass of getReadLock: admit the reader, or suspend it. */
    method GetReadLock(ghost t: Caller) returns (granted: bool)
      requires Valid() && Allowed(Model(), TryRead(t))
      modifies this
      ensures Valid() && Model() == Next(old(Model()), TryRead(t))
      ensures granted == old(CanGrantRead())
      ensures granted ==> readers == old(readers) + 1 && PhaseOf(phases, t) == HoldRead
      ensures !granted ==> readers == old(readers) && t in asleep
      ensures writers == old(writers) && waitingWriters == old(waitingWriters)
    {
      granted := CanGrantRead();
      if granted {
        readers := readers + 1;
        phases := phases[t := HoldRead];
      } else {
        asleep := asleep + {t};
      }
      NextKeepsInv(old(Model()), TryRead(t));
    }

    /** releaseReadLock: one reader leaves; waiting callers are woken when a
        writer is registered. */
    method ReleaseReadLock(ghost t: Caller) returns (woke: bool)
      requires Valid() && Allowed(Model(), EndRead(t))
      modifies this
      ensures Valid() && Model() == Next(old(Model()), EndRead(t))
      ensures readers == old(readers) - 1
      ensures writers == old(writers) && waitingWriters == old(waitingWriters)
      ensures woke <==> waitingWriters > 0
      ensures woke <==> exists u :: PhaseOf(old(phases), u) == WaitingWrite
      ensures asleep == if woke then {} else old(asleep)
    {
      ReleaseReadWake(Model(), t);
      readers := readers - 1;
      phases := phases[t := Idle];
      woke := waitingWriters > 0;
      if woke {
        asleep := {};
      }
      NextKeepsInv(old(Model()), EndRead(t));
    }

    /** The first half of getWriteLock: the writer announces itself, which
        from now on keeps new readers out. */
    method RegisterWriter(ghost t: Caller)
      requires Valid() && Allowed(Model(), Register(t))
      modifies this
      ensures Valid() && Model() == Next(old(Model()), Register(t))
      ensures waitingWriters == old(waitingWriters) + 1
      ensures readers == old(readers) && writers == old(writers)
      ensures !CanGrantRead()
    {
      waitingWriters := waitingWriters + 1;
      phases := phases[t := WaitingWrite];
      NextKeepsInv(old(Model()), Register(t));
    }

    /** One pass of getWriteLock's loop: admit the registered writer, or
        suspend it. */
    method GrantWrite(ghost t: Caller) returns (granted: bool)
      requires Valid() && Allowed(Model(), TryWrite(t))
      modifies this
      ensures Valid() && Model() == Next(old(Model()), TryWrite(t))
      ensures granted == old(CanGrantWrite())
      ensures granted ==> waitingWriters == old(waitingWriters) - 1 && writers == old(writers) + 1
      ensures granted ==> PhaseOf(phases, t) == HoldWrite
      ensures !granted ==> waitingWriters == old(waitingWriters) && writers == old(writers) && t in asleep
      ensures readers == old(readers)
    {
      granted := CanGrantWrite();
      if granted {
        waitingWriters := waitingWriters - 1;
        writers := writers + 1;
        phases := phases[t := HoldWrite];
      } else {
        asleep := asleep + {t};
      }
      NextKeepsInv(old(Model()), TryWrite(t));
    }

    /** releaseWriteLock: the writer leaves and every waiting caller is
        woken. */
    method ReleaseWriteLock(ghost t: Caller) returns (woke: bool)
      requires Valid() && Allowed(Model(), EndWrite(t))
      modifies this
      ensures Valid() && Model() == Next(old(Model()), EndWrite(t))
      ensures writers == old(writers) - 1 && writers == 0
      ensures readers == old(readers) && waitingWriters == old(waitingWriters)
      ensures woke && asleep == {}
    {
      writers := writers - 1;
      phases := phases[t := Idle];
      woke := true;
      asleep := {};
      NextKeepsInv(old(Model()), EndWrite(t));
    }

    /** A suspended caller leaves wait() without being notified (an
        InterruptedException, which the source swallows, or a spurious
        wake-up); it will check its guard again. */
    ghost method InterruptWait(t: Caller)
      requires Valid() && Allowed(Model(), Interrupt(t))
      modifies this
      ensures Valid() && Model() == Next(old(Model()), Interrupt(t))
      ensures Counts() == old(Counts()) && phases == old(phases)
      ensures t !in asleep
    {
      asleep := asleep - {t};
      NextKeepsInv(old(Model()), Interrupt(t));
    }
  }

  /** Two readers hold the lock together. */
  method ReadersTogether()
  {
    var lock := new ReaderWriterLock();
    var a := lock.GetReadLock(1);
    var b := lock.GetReadLock(2);
    assert a && b && lock.readers == 2;
  }

  /** A writer waits for the reader, blocks a later reader, and is admitted
      once the reader leaves. */
  method WriterWaitsForReader()
  {
    var lock := new ReaderWriterLock();
    var a := lock.GetReadLock(1);
    lock.RegisterWriter(2);
    var w := lock.GrantWrite(2);
    assert a && !w;
    var late := lock.GetReadLock(3);
    assert !late;
    var woke := lock.ReleaseReadLock(1);
    assert woke;
    w := lock.GrantWrite(2);
    assert w && lock.writers == 1 && lock.waitingWriters == 0;
  }

  /** A reader waits for the writer and is admitted after it leaves. */
  method ReaderWaitsForWriter()
  {
    var lock := new ReaderWriterLock();
    lock.RegisterWriter(1);
    var w := lock.GrantWrite(1);
    var r := lock.GetReadLock(2);
    assert w && !r;
    var woke := lock.ReleaseWriteLock(1);
    r := lock.GetReadLock(2);
    assert woke && r && lock.readers == 1 && lock.writers == 0;
  }

  /** A second writer waits for the first. */
  method WriterWaitsForWriter()
  {
    var lock := new ReaderWriterLock();
    lock.RegisterWriter(1);
    var w1 := lock.GrantWrite(1);
    lock.RegisterWriter(2);
    var w2 := lock.GrantWrite(2);
    assert w1 && !w2 && lock.waitingWriters == 1;
    var woke := lock.ReleaseWriteLock(1);
    w2 := lock.GrantWrite(2);
    assert w2 && lock.writers == 1 && lock.waitingWriters == 0;
  }

  /** The thread holding the write lock asks for a read lock (as caller 2):
      the request is suspended, and an interrupted wait only suspends it
      again, since nobody but that same thread could release the lock. */
  method WriterAskingToReadBlocks()
  {
    var lock := new ReaderWriterLock();
    lock.RegisterWriter(1);
    var w := lock.GrantWrite(1);
    var r := lock.GetReadLock(2);
    assert w && !r;
    lock.InterruptWait(2);
    r := lock.GetReadLock(2);
    assert !r && lock.writers == 1;
  }
}
