/** What every step of the threads keeps, over whole runs. */
module ThreadSafety {
  import opened ThreadRing

  lemma RotatedSame(ring: seq<Tid>, i: nat)
    requires i < |ring| && Distinct(ring)
    ensures Distinct(Rotated(ring, i)) && |Rotated(ring, i)| == |ring| && Rotated(ring, i)[0] == ring[i]
    ensures forall t {:trigger t in Rotated(ring, i)} {:trigger t in ring} :: t in Rotated(ring, i) <==> t in ring
  {
    var r := Rotated(ring, i);
    assert forall k | 0 <= k < |r| :: r[k] == ring[if k < |ring| - i then i + k else k - (|ring| - i)];
    assert ring == ring[..i] + ring[i..];
    assert forall t :: t in ring <==> t in ring[..i] || t in ring[i..];
  }

  lemma SwitchInv(s: State, t: Tid)
    requires Inv(s) && t in s.ring && !s.threads[t].hasStopped
    ensures Inv(SwitchTo(s, t)) && SwitchTo(s, t).ring[0] == t
  {
    RotatedSame(s.ring, IndexOf(s.ring, t));
  }

  lemma WithoutSame(ring: seq<Tid>, t: Tid)
    requires Distinct(ring) && t in ring
    ensures var r := Without(ring, t);
            Distinct(r) && |r| == |ring| - 1 && (t != ring[0] ==> r != [] && r[0] == ring[0]) && forall u {:trigger u in r} {:trigger u in ring} :: u in r <==> u in ring && u != t
  {
    var i := IndexOf(ring, t);
    var r := Without(ring, t);
    assert forall k | 0 <= k < |r| :: r[k] == ring[if k < i then k else k + 1];
    forall u ensures u in r <==> u in ring && u != t {
      if u in r {
        var k :| 0 <= k < |r| && r[k] == u;
        assert u == ring[if k < i then k else k + 1];
      }
      if u in ring && u != t {
        var k :| 0 <= k < |ring| && ring[k] == u;
        assert u == r[if k < i then k else k - 1];
      }
    }
  }

  lemma FreeInv(s: State, t: Tid)
    requires Inv(s) && Known(s, t) && s.threads[t].hasStopped
    ensures Inv(Free(s, t)) && Free(s, t).ring[0] == s.ring[0]
  {
    hide Without, FreedOk;
    WithoutSame(s.ring, t);
    var s' := Free(s, t);
    assert s.ring[0] in s.ring;
    assert t != MAIN && t != s.ring[0];
    assert MAIN in s'.ring;
    FreedMore(s, t);
  }

  lemma FreedMore(s: State, t: Tid)
    requires FreedOk(s) && Known(s, t) && s.threads[t].hasStopped
    ensures FreedOk(Free(s, t))
  {
    hide Without;
    var s' := Free(s, t);
    assert forall i | 0 <= i < |s.freed| :: s'.freed[i] == s.freed[i];
  }

  lemma SetInv(s: State, t: Tid, h: Thread)
    requires Inv(s) && Known(s, t) && ThreadOk(t, h) && (h.hasStopped ==> t != s.ring[0])
    ensures Inv(Set(s, t, h))
  {
    var s' := Set(s, t, h);
    assert forall u :: u in s'.threads <==> u in s.threads;
  }

  lemma {:induction false} ScanInv(s: State, i: nat)
    requires Inv(s) && 1 <= i <= |s.ring|
    ensures Inv(Scan(s, i))
    decreases |s.ring| - i
  {
    hide Inv;
    if i < |s.ring| {
      var t := s.ring[i];
      assert RingKnown(s) by { InvKnown(s); }
      assert t in s.ring;
      if s.threads[t].awake {
        AwakeRuns(s, t);
        SwitchInv(s, t);
      } else if Dead(s.threads[t]) {
        FreeKnown(s, i);
        FreeInv(s, t);
        ScanInv(Free(s, t), i);
      } else {
        ScanInv(s, i + 1);
      }
    }
  }

  lemma InvKnown(s: State)
    requires Inv(s)
    ensures RingKnown(s) && Known(s, MAIN)
  {
  }

  lemma AwakeRuns(s: State, t: Tid)
    requires Inv(s) && Known(s, t) && s.threads[t].awake
    ensures !s.threads[t].hasStopped
  {
  }

  lemma CreateInv(s: State, t: Tid)
    requires Inv(s) && Enabled(s, Create(t))
    ensures Inv(StepOf(s, Create(t)))
  {
    var s' := StepOf(s, Create(t));
    assert t !in s.ring;
    assert forall u {:trigger u in s'.ring} :: u in s'.ring <==> u in s.ring || u == t;
    assert MAIN in s'.ring && s'.ring[0] == s.ring[0];
    forall i | 0 <= i < |s'.freed| ensures s'.freed[i].0 !in s'.threads {
      assert s.freed[i].0 !in s.threads;
      assert s.freed[i].0 != t by { assert !WasFreed(s, t); }
    }
  }

  /** The current thread stops and the main thread goes on. */
  lemma {:induction false} FinishInv(s: State)
    requires Inv(s) && Enabled(s, Finish)
    ensures Inv(StepOf(s, Finish))
  {
    var me := s.ring[0];
    var h := s.threads[me].(awake := false, hasStopped := true);
    var s1 := Set(s, me, h);
    RotatedSame(s.ring, IndexOf(s.ring, MAIN));
    assert forall u :: u in s1.threads <==> u in s.threads;
  }

  /** Every step keeps the invariant. */
  lemma StepInv(s: State, step: Step)
    requires Inv(s) && RingKnown(s) && Enabled(s, step)
    ensures Inv(StepOf(s, step))
  {
    var me := s.ring[0];
    assert me in s.ring && Known(s, me);
    match step
    case Create(t) => CreateInv(s, t);
    case Wake(t) => SetInv(s, t, s.threads[t].(awake := true));
    case Suspend(t) => SetInv(s, t, s.threads[t].(awake := false));
    case Cancel(t) => SetInv(s, t, s.threads[t].(shouldStop := true, shouldClean := true));
    case Stop(t) => SetInv(s, t, s.threads[t].(shouldStop := true, joined := true));
    case Reap(t) => FreeInv(s, t);
    case Reschedule => ScanInv(s, 1);
    case Schedule(t) => SwitchInv(s, t);
    case Begin =>
      SetInv(s, me, s.threads[me].(starting := false));
      ScanInv(Set(s, me, s.threads[me].(starting := false)), 1);
    case Finish => FinishInv(s);
  }

  // ------------------------------------------------------------------
  // Runs

  ghost predicate Next(s: State, step: Step, s': State) {
    RingKnown(s) && Enabled(s, step) && s' == StepOf(s, step)
  }

  ghost predicate Run(states: seq<State>, steps: seq<Step>) {
    |states| == |steps| + 1 && forall i {:trigger steps[i]} | 0 <= i < |steps| :: Next(states[i], steps[i], states[i + 1])
  }

  function Initial(): State {
    State([MAIN], map[MAIN := Thread(true, false, false, false, false, false)], [])
  }

  /** At first there is the main thread alone, awake. */
  lemma InitialInv()
    ensures Inv(Initial()) && Initial().ring == [MAIN] && Initial().freed == []
    ensures var h := Initial().threads[MAIN]; h.awake && !(h.shouldStop || h.shouldClean || h.hasStopped || h.starting || h.joined)
  {
    assert Initial().ring[0] == MAIN;
  }

  lemma {:induction false} RunInv(states: seq<State>, steps: seq<Step>, k: nat)
    requires Run(states, steps) && Inv(states[0]) && k < |states|
    ensures Inv(states[k])
    decreases k
  {
    hide Inv, Enabled, StepOf;
    if k > 0 {
      RunInv(states, steps, k - 1);
      assert Next(states[k - 1], steps[k - 1], states[k]);
      StepInv(states[k - 1], steps[k - 1]);
    }
  }

  /** In every reachable state: the ring holds the main and the current thread, the
      current thread has not stopped, no thread has been freed twice, and each freed
      thread had stopped. */
  lemma Reachable(states: seq<State>, steps: seq<Step>, k: nat)
    requires Run(states, steps) && states[0] == Initial() && k < |states|
    ensures var s := states[k];
            && s.ring != [] && MAIN in s.ring && Known(s, s.ring[0]) && !s.threads[s.ring[0]].hasStopped
            && (forall i {:trigger s.freed[i]} | 0 <= i < |s.freed| :: s.freed[i].1.hasStopped && s.freed[i].0 !in s.ring)
            && (forall i, j | 0 <= i < j < |s.freed| :: s.freed[i].0 != s.freed[j].0)
  {
    InitialInv();
    RunInv(states, steps, k);
    assert states[k].ring[0] in states[k].ring;
  }
}
