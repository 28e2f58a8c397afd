/** The thread functions as they edit the ring in place, one step each. */
module Scheduler {
  import opened ThreadRing
  import opened ThreadSafety

  class Bthreads {
    var ring: seq<Tid>                 // from the current thread on
    var threads: map<Tid, Thread>
    ghost var freed: seq<(Tid, Thread)>

    ghost function Now(): State
      reads this
    {
      State(ring, threads, freed)
    }

    constructor ()
      ensures Now() == Initial() && Inv(Now())
    {
      ring, threads, freed := [MAIN], map[MAIN := Thread(true, false, false, false, false, false)], [];
      InitialInv();
    }

    /** bthread_create: the new thread goes to the end of the ring, just before the
        current one.  Without memory nothing happens. */
    method Create(t: Tid, memory: bool) returns (created: bool)
      requires Inv(Now()) && RingKnown(Now()) && Enabled(Now(), ThreadRing.Create(t))
      modifies this
      ensures created == memory && Inv(Now())
      ensures Now() == if memory then StepOf(old(Now()), ThreadRing.Create(t)) else old(Now())
    {
      hide Inv, Scan, IndexOf, Distinct;
      if !memory {
        return false;
      }
      StepInv(Now(), ThreadRing.Create(t));
      ring, threads := ring + [t], threads[t := Thread(false, false, false, false, true, false)];
      return true;
    }

    /** bthread_wake */
    method Wake(t: Tid)
      requires Inv(Now()) && RingKnown(Now()) && Enabled(Now(), ThreadRing.Wake(t))
      modifies this
      ensures Inv(Now()) && Now() == StepOf(old(Now()), ThreadRing.Wake(t))
    {
      hide Inv, Scan, IndexOf, Distinct;
      StepInv(Now(), ThreadRing.Wake(t));
      threads := threads[t := threads[t].(awake := true)];
    }

    /** bthread_suspend */
    method Suspend(t: Tid)
      requires Inv(Now()) && RingKnown(Now()) && Enabled(Now(), ThreadRing.Suspend(t))
      modifies this
      ensures Inv(Now()) && Now() == StepOf(old(Now()), ThreadRing.Suspend(t))
    {
      hide Inv, Scan, IndexOf, Distinct;
      StepInv(Now(), ThreadRing.Suspend(t));
      threads := threads[t := threads[t].(awake := false)];
    }

    /** bthread_cancel */
    method Cancel(t: Tid)
      requires Inv(Now()) && RingKnown(Now()) && Enabled(Now(), ThreadRing.Cancel(t))
      modifies this
      ensures Inv(Now()) && Now() == StepOf(old(Now()), ThreadRing.Cancel(t))
    {
      hide Inv, Scan, IndexOf, Distinct;
      StepInv(Now(), ThreadRing.Cancel(t));
      threads := threads[t := threads[t].(shouldStop := true, shouldClean := true)];
    }

    /** __bthread_stop before it begins to wait */
    method Stop(t: Tid)
      requires Inv(Now()) && RingKnown(Now()) && Enabled(Now(), ThreadRing.Stop(t))
      modifies this
      ensures Inv(Now()) && Now() == StepOf(old(Now()), ThreadRing.Stop(t))
    {
      hide Inv, Scan, IndexOf, Distinct;
      StepInv(Now(), ThreadRing.Stop(t));
      threads := threads[t := threads[t].(shouldStop := true, joined := true)];
    }

    /** One turn of the wait in __bthread_stop: yield while the thread runs, else take
        it out of the ring and free it. */
    method Join(t: Tid) returns (done: bool)
      requires Inv(Now()) && RingKnown(Now()) && Enabled(Now(), ThreadRing.Reschedule) && Known(Now(), t) && threads[t].joined
      modifies this
      ensures Inv(Now()) && done == old(threads[t].hasStopped)
      ensures done ==> Enabled(old(Now()), ThreadRing.Reap(t)) && Now() == StepOf(old(Now()), ThreadRing.Reap(t))
      ensures !done ==> Now() == StepOf(old(Now()), ThreadRing.Reschedule)
    {
      if !threads[t].hasStopped {
        Reschedule();
        return false;
      }
      StepInv(Now(), ThreadRing.Reap(t));
      Unlink(t);
      return true;
    }

    /** list_del and bthread_free */
    method Unlink(t: Tid)
      requires t in ring && t in threads
      modifies this
      ensures Now() == Free(old(Now()), t)
    {
      var i := IndexOf(ring, t);
      freed := freed + [(t, threads[t])];
      ring, threads := ring[..i] + ring[i + 1..], threads - {t};
    }

    /** bthread_reschedule */
    method Reschedule()
      requires RingKnown(Now()) && Inv(Now())
      modifies this
      ensures Now() == Scan(old(Now()), 1) && Inv(Now())
    {
      ScanInv(Now(), 1);
      if |ring| == 1 {
        return;
      }
      var i := 1;
      while i < |ring|
        invariant 1 <= i <= |ring| && RingKnown(Now())
        invariant Scan(Now(), i) == Scan(old(Now()), 1)
        decreases |ring| - i
      {
        var next := ring[i];
        assert next in ring;
        if threads[next].awake {
          Schedule(next);
          return;
        }
        if threads[next].hasStopped && threads[next].shouldClean {
          FreeKnown(Now(), i);
          Unlink(next);
        } else {
          i := i + 1;
        }
      }
    }

    /** bthread_schedule */
    method Schedule(to: Tid)
      requires to in ring
      modifies this
      ensures Now() == SwitchTo(old(Now()), to)
    {
      var i := IndexOf(ring, to);
      ring := ring[i..] + ring[..i];
    }

    /** bthread_trampoline up to the call of the thread's function */
    method Begin()
      requires Inv(Now()) && RingKnown(Now()) && Enabled(Now(), ThreadRing.Begin)
      modifies this
      ensures Inv(Now()) && Now() == StepOf(old(Now()), ThreadRing.Begin)
    {
      var me := ring[0];
      assert me in ring;
      SetInv(Now(), me, threads[me].(starting := false));
      threads := threads[me := threads[me].(starting := false)];
      Reschedule();
    }

    /** bthread_trampoline after the thread's function has returned */
    method Finish()
      requires Inv(Now()) && RingKnown(Now()) && Enabled(Now(), ThreadRing.Finish)
      modifies this
      ensures Inv(Now()) && Now() == StepOf(old(Now()), ThreadRing.Finish)
    {
      hide Inv, Scan, IndexOf, Distinct;
      StepInv(Now(), ThreadRing.Finish);
      var me := ring[0];
      assert me in ring;
      threads := threads[me := threads[me].(awake := false)];
      threads := threads[me := threads[me].(hasStopped := true)];
      assert threads == old(threads)[me := old(threads)[me].(awake := false, hasStopped := true)];
      Schedule(MAIN);
    }
  }
}
