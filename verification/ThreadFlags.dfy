/** What each call does to the flags of each thread, and what becomes of a thread that is
    woken or asked to stop. */
module ThreadFlags {
  import opened ThreadRing
  import opened ThreadSafety
  import opened ThreadFairness

  // ------------------------------------------------------------------
  // What a scan frees

  ghost predicate Asleep(s: State, t: Tid) {
    t in s.threads && !s.threads[t].awake
  }

  /** A scan frees a thread exactly when it has stopped, is to be cleaned up, and none of
      those scanned before it is awake. */
  lemma {:induction false} ScanFrees(s: State, i: nat, d: nat)
    requires RingKnown(s) && 1 <= i <= |s.ring| && 0 <= d < |s.ring|
    ensures s.ring[d] in s.ring && s.ring[d] in s.threads
    ensures s.ring[d] !in Scan(s, i).threads <==>
            i <= d && Dead(s.threads[s.ring[d]]) && forall k {:trigger s.ring[k]} | i <= k < d :: Asleep(s, s.ring[k])
    decreases |s.ring| - i
  {
    var t := s.ring[d];
    assert t in s.ring;
    if i < |s.ring| {
      var u := s.ring[i];
      assert u in s.ring;
      if s.threads[u].awake {
        assert i < d ==> !Asleep(s, s.ring[i]);
      } else if Dead(s.threads[u]) {
        FreeKnown(s, i);
        var f := Free(s, u);
        if d == i {
          GoneStays(f, i, u);
        } else {
          var e := if d < i then d else d - 1;
          assert f.ring[e] == t && t != u;
          ScanFrees(f, i, e);
          FreedAsleep(s, i, d);
        }
      } else {
        ScanFrees(s, i + 1, d);
        if i < d {
          assert Asleep(s, s.ring[i]);
        }
      }
    }
  }

  /** The threads between the i-th and the d-th, once the i-th is gone. */
  lemma FreedAsleep(s: State, i: nat, d: nat)
    requires RingKnown(s) && 1 <= i < |s.ring| && 0 <= d < |s.ring| && d != i && s.ring[i] in s.threads && !s.threads[s.ring[i]].awake
    requires s.ring[i] in s.ring
    ensures var f := Free(s, s.ring[i]);
            i < d ==> ((forall k {:trigger s.ring[k]} | i <= k < d :: Asleep(s, s.ring[k])) <==>
                       |f.ring| == |s.ring| - 1 && forall k {:trigger f.ring[k]} | i <= k < d - 1 :: Asleep(f, f.ring[k]))
  {
    FreeKnown(s, i);
    var f := Free(s, s.ring[i]);
    assert forall k | i <= k < |f.ring| :: f.ring[k] == s.ring[k + 1] && s.ring[k + 1] != s.ring[i];
    if i < d && |f.ring| == |s.ring| - 1 && forall k {:trigger f.ring[k]} | i <= k < d - 1 :: Asleep(f, f.ring[k]) {
      forall k | i <= k < d ensures Asleep(s, s.ring[k]) {
        if k > i {
          assert f.ring[k - 1] == s.ring[k];
        }
      }
    }
  }

  lemma {:induction false} GoneStays(s: State, i: nat, t: Tid)
    requires RingKnown(s) && 1 <= i <= |s.ring| && t !in s.threads
    ensures t !in Scan(s, i).threads
    decreases |s.ring| - i
  {
    if i < |s.ring| {
      var u := s.ring[i];
      assert u in s.ring;
      if !s.threads[u].awake {
        if Dead(s.threads[u]) {
          FreeKnown(s, i);
          GoneStays(Free(s, u), i, t);
        } else {
          GoneStays(s, i + 1, t);
        }
      }
    }
  }

  // ------------------------------------------------------------------
  // What a step does to the flags

  /** The flags of `t` after a step, from those before it; `me` is the current thread. */
  ghost predicate Flags(h: Thread, step: Step, t: Tid, me: Tid, h': Thread) {
    var ends := step == Finish && t == me;
    && h'.awake == ((h.awake || step == Wake(t)) && step != Suspend(t) && !ends)
    && h'.shouldStop == (h.shouldStop || step == Cancel(t) || step == Stop(t))
    && h'.shouldClean == (h.shouldClean || step == Cancel(t))
    && h'.hasStopped == (h.hasStopped || ends)
    && h'.starting == (h.starting && !(step == Begin && t == me))
    && h'.joined == (h.joined || step == Stop(t))
  }

  /** Every step but the one that frees it. */
  lemma StepFlags(s: State, step: Step, t: Tid)
    requires Inv(s) && RingKnown(s) && Enabled(s, step) && Known(s, t) && t in StepOf(s, step).threads
    ensures Flags(s.threads[t], step, t, s.ring[0], StepOf(s, step).threads[t])
  {
    hide Inv, Distinct, IndexOf, Without, Scan;
    match step
    case Reschedule => ScanFlags(s, 1, t);
    case Begin =>
      var me := s.ring[0];
      assert me in s.ring;
      ScanFlags(Set(s, me, s.threads[me].(starting := false)), 1, t);
    case _ =>
  }

  lemma {:induction false} ScanFlags(s: State, i: nat, t: Tid)
    requires RingKnown(s) && 1 <= i <= |s.ring| && t in s.threads && t in Scan(s, i).threads
    ensures Scan(s, i).threads[t] == s.threads[t]
    decreases |s.ring| - i
  {
    if i < |s.ring| {
      var u := s.ring[i];
      assert u in s.ring;
      if !s.threads[u].awake {
        if Dead(s.threads[u]) {
          FreeKnown(s, i);
          if t == u {
            GoneStays(Free(s, u), i, t);
          } else {
            ScanFlags(Free(s, u), i, t);
          }
        } else {
          ScanFlags(s, i + 1, t);
        }
      }
    }
  }

  /** A step takes a thread away exactly when it is the last of a wait for it, or a yield
      whose scan frees it. */
  lemma StepTakes(s: State, step: Step, t: Tid)
    requires Inv(s) && RingKnown(s) && Enabled(s, step) && Known(s, t)
    ensures t !in StepOf(s, step).threads <==>
            step == Reap(t) || (Yields(step) && Dead(s.threads[t]) && Ahead(s, t) > 0 &&
                                forall k {:trigger s.ring[k]} | 1 <= k < Ahead(s, t) :: Asleep(s, s.ring[k]))
  {
    hide Inv, IndexOf, Without;
    var d := Ahead(s, t);
    match step
    case Reschedule => ScanFrees(s, 1, d);
    case Begin =>
      var me := s.ring[0];
      assert me in s.ring;
      ScanFrees(Set(s, me, s.threads[me].(starting := false)), 1, d);
      assert forall k {:trigger s.ring[k]} | 1 <= k < d :: s.ring[k] in s.ring && s.ring[k] != me;
    case _ =>
  }

  /** A new thread comes last, just before the current one, asleep and yet to begin. */
  lemma StepCreates(s: State, t: Tid)
    requires Inv(s) && RingKnown(s) && Enabled(s, Create(t))
    ensures var s' := StepOf(s, Create(t));
            && |s'.ring| == |s.ring| + 1 && s'.ring[..|s.ring|] == s.ring && s'.ring[|s.ring|] == t && t in s'.threads
            && var h := s'.threads[t]; h.starting && !(h.awake || h.shouldStop || h.shouldClean || h.hasStopped || h.joined)
  {
  }

  // ------------------------------------------------------------------
  // Over whole runs

  /** Who is asked to stop stays so until freed; who is cancelled is also to be cleaned up. */
  lemma {:induction false} RequestStays(states: seq<State>, steps: seq<Step>, t: Tid, k: nat)
    requires Run(states, steps) && Inv(states[0]) && 0 < k < |states|
    requires steps[0] == Cancel(t) || steps[0] == Stop(t)
    requires forall j {:trigger states[j]} | 0 <= j <= k :: Known(states[j], t)
    ensures Known(states[k], t) && states[k].threads[t].shouldStop && (steps[0] == Cancel(t) ==> states[k].threads[t].shouldClean)
    decreases k
  {
    hide Inv, Enabled, StepOf, Known;
    var s, step := states[k - 1], steps[k - 1];
    RunInv(states, steps, k - 1);
    assert Next(s, step, states[k]);
    assert Known(states[k], t) && Known(s, t);
    KnownThere(s, t);
    KnownThere(states[k], t);
    StepFlags(s, step, t);
    if k > 1 {
      RequestStays(states, steps, t, k - 1);
    }
  }

  lemma KnownThere(s: State, t: Tid)
    requires Known(s, t)
    ensures t in s.ring && t in s.threads
  {
  }

  /** A thread that is woken, and then neither suspended nor freed, runs within as many
      reschedules as there are threads ahead of it. */
  lemma {:induction false} WokenRuns(states: seq<State>, steps: seq<Step>, t: Tid)
    requires Run(states, steps) && Inv(states[0]) && NoJumps(steps) && steps != [] && steps[0] == Wake(t)
    requires Suspend(t) !in steps && Known(states[0], t) && Calls(steps) >= Ahead(states[0], t)
    ensures exists i :: 0 <= i < |states| && states[i].ring != [] && states[i].ring[0] == t
  {
    hide Inv, Enabled, StepOf, Calls, NoJumps, Waiting;
    if forall i | 0 <= i < |states| :: !(states[i].ring != [] && states[i].ring[0] == t) {
      var ss, es := states[1..], steps[1..];
      forall i | 0 <= i < |es| ensures Next(ss[i], es[i], ss[i + 1]) {
        assert Next(states[i + 1], steps[i + 1], states[i + 2]);
      }
      RunInv(states, steps, 1);
      assert Next(states[0], steps[0], states[1]);
      forall i | 0 <= i < |ss| ensures Waiting(ss[i], t) && ss[i].ring != [] && ss[i].ring[0] != t {
        WokenWaits(states, steps, t, i + 1);
        RunInv(states, steps, i + 1);
        RingThere(ss[i]);
      }
      WaitedFor(states, steps, t);
      WaitBound(ss, es, t);
    }
  }

  lemma RingThere(s: State)
    requires Inv(s)
    ensures s.ring != []
  {
  }

  /** The wake itself changes neither the place of the thread nor the number of yields to
      come. */
  lemma WaitedFor(states: seq<State>, steps: seq<Step>, t: Tid)
    requires Run(states, steps) && NoJumps(steps) && steps != [] && steps[0] == Wake(t) && Known(states[0], t)
    ensures NoJumps(steps[1..]) && Calls(steps[1..]) == Calls(steps)
    ensures t in states[1].ring && Ahead(states[1], t) == Ahead(states[0], t)
  {
    hide Inv, Scan, IndexOf;
    assert Next(states[0], steps[0], states[1]);
    CallsAfter(steps);
  }

  lemma {:induction false} CallsAfter(steps: seq<Step>)
    requires steps != []
    ensures Calls(steps) == Calls(steps[1..]) + if Yields(steps[0]) then 1 else 0
  {
    var n := |steps| - 1;
    if n == 0 {
      assert steps[..0] == [] && steps[1..] == [];
    } else {
      CallsAfter(steps[..n]);
      assert steps[..n][1..] == steps[1..][..n - 1];
    }
  }

  lemma {:induction false} WokenWaits(states: seq<State>, steps: seq<Step>, t: Tid, k: nat)
    requires Run(states, steps) && Inv(states[0]) && NoJumps(steps) && steps != [] && steps[0] == Wake(t)
    requires Suspend(t) !in steps && Known(states[0], t) && 1 <= k < |states|
    ensures Waiting(states[k], t)
    decreases k
  {
    hide Inv, Enabled, StepOf, Calls;
    var s, step := states[k - 1], steps[k - 1];
    RunInv(states, steps, k - 1);
    assert Next(s, step, states[k]);
    if k > 1 {
      WokenWaits(states, steps, t, k - 1);
    }
    assert Known(s, t) && (k > 1 ==> s.threads[t].awake);
    assert step in steps && step != Finish;
    AwakeStays(s, step, t);
    RunInv(states, steps, k);
    InvKnown(states[k]);
    StepFlags(s, step, t);
    InRing(states[k], t);
  }

  lemma InRing(s: State, t: Tid)
    requires Inv(s) && t in s.threads
    ensures Known(s, t)
  {
  }

  /** A thread that is awake, or is being woken, is not taken away. */
  lemma AwakeStays(s: State, step: Step, t: Tid)
    requires Inv(s) && RingKnown(s) && Enabled(s, step) && Known(s, t) && (s.threads[t].awake || step == Wake(t))
    ensures t in StepOf(s, step).threads
  {
    hide Scan, IndexOf, Without;
    StepTakes(s, step, t);
    assert ThreadOk(t, s.threads[t]);
  }
}
