/** How long a thread that is awake can be kept waiting. */
module ThreadFairness {
  import opened ThreadRing
  import opened ThreadSafety

  /** How many threads are before `t`, the current one included. */
  function Ahead(s: State, t: Tid): nat
    requires t in s.ring
  {
    IndexOf(s.ring, t)
  }

  ghost predicate Waiting(s: State, t: Tid) {
    Known(s, t) && s.threads[t].awake
  }

  // ------------------------------------------------------------------
  // What one scan does

  /** Threads that are awake, and the flags of all that remain, are left alone. */
  lemma {:induction false} ScanKeeps(s: State, i: nat, t: Tid)
    requires RingKnown(s) && 1 <= i <= |s.ring| && Known(s, t) && !Dead(s.threads[t])
    ensures Known(Scan(s, i), t) && Scan(s, i).threads[t] == s.threads[t]
    decreases |s.ring| - i
  {
    if i < |s.ring| {
      var u := s.ring[i];
      assert u in s.ring;
      if s.threads[u].awake {
        RotatedSame(s.ring, IndexOf(s.ring, u));
      } else if Dead(s.threads[u]) {
        FreeKnown(s, i);
        WithoutSame(s.ring, u);
        ScanKeeps(Free(s, u), i, t);
      } else {
        ScanKeeps(s, i + 1, t);
      }
    }
  }

  lemma RotatedIndex(ring: seq<Tid>, i: nat, d: nat)
    requires Distinct(ring) && i <= d < |ring|
    ensures ring[d] in Rotated(ring, i) && IndexOf(Rotated(ring, i), ring[d]) == d - i
  {
    var r := Rotated(ring, i);
    assert r[d - i] == ring[d];
    RotatedSame(ring, i);
    IndexIs(r, d - i);
  }

  lemma RemovedIndex(ring: seq<Tid>, i: nat, d: nat)
    requires Distinct(ring) && i < d < |ring|
    ensures var r := ring[..i] + ring[i + 1..]; Distinct(r) && r[d - 1] == ring[d] && ring[d] in r && IndexOf(r, ring[d]) == d - 1
  {
    var r := ring[..i] + ring[i + 1..];
    IndexIs(ring, i);
    assert r == Without(ring, ring[i]);
    WithoutSame(ring, ring[i]);
    assert r[d - 1] == ring[d];
    IndexIs(r, d - 1);
  }

  /** A scan brings every waiting thread nearer, or to the front. */
  lemma {:induction false} ScanNearer(s: State, i: nat, d: nat)
    requires RingKnown(s) && 1 <= i <= d < |s.ring| && Waiting(s, s.ring[d])
    ensures Known(Scan(s, i), s.ring[d]) && Ahead(Scan(s, i), s.ring[d]) <= d - i
    decreases |s.ring| - i
  {
    hide IndexOf, Without, Rotated, Distinct;
    var t, u := s.ring[d], s.ring[i];
    assert u in s.ring;
    ScanKeeps(s, i, t);
    if s.threads[u].awake {
      IndexIs(s.ring, i);
      RotatedIndex(s.ring, i, d);
    } else if Dead(s.threads[u]) {
      FreeKnown(s, i);
      RemovedIndex(s.ring, i, d);
      ScanNearer(Free(s, u), i, d - 1);
    } else {
      ScanNearer(s, i + 1, d);
    }
  }

  /** What a scan runs next: the first thread after the current one that is awake; when
      there is none the current one goes on. */
  lemma {:induction false} ScanRuns(s: State, i: nat, d: nat)
    requires RingKnown(s) && 1 <= i <= d <= |s.ring|
    requires forall k {:trigger s.ring[k]} | i <= k < d :: s.ring[k] in s.threads && !s.threads[s.ring[k]].awake
    requires d < |s.ring| ==> Waiting(s, s.ring[d])
    ensures Scan(s, i).ring != [] && Scan(s, i).ring[0] == s.ring[if d == |s.ring| then 0 else d]
    decreases |s.ring| - i
  {
    hide Without, IndexOf;
    if i < |s.ring| {
      var u := s.ring[i];
      assert u in s.ring;
      if i == d {
        IndexIs(s.ring, i);
        RotatedSame(s.ring, i);
      } else if Dead(s.threads[u]) {
        FreeKnown(s, i);
        var r := Free(s, u).ring;
        assert forall k {:trigger r[k]} | i <= k < d - 1 :: r[k] == s.ring[k + 1];
        forall k | i <= k < d - 1 ensures r[k] in Free(s, u).threads && !Free(s, u).threads[r[k]].awake {
          assert r[k] in r;
        }
        if d < |s.ring| {
          assert r[d - 1] == s.ring[d] && r[d - 1] in r;
        }
        ScanRuns(Free(s, u), i, d - 1);
      } else {
        ScanRuns(s, i + 1, d);
      }
    }
  }

  // ------------------------------------------------------------------
  // One step

  predicate Yields(step: Step) { step == Reschedule || step == Begin }

  predicate Jumps(step: Step) { step.Schedule? || step == Finish }

  lemma AppendedIndex(ring: seq<Tid>, t: Tid, u: Tid)
    requires Distinct(ring) && t in ring && u !in ring
    ensures t in ring + [u] && IndexOf(ring + [u], t) == IndexOf(ring, t)
  {
    var r := ring + [u];
    assert Distinct(r);
    var i := IndexOf(ring, t);
    assert r[i] == t;
    IndexIs(r, i);
  }

  lemma WithoutIndex(ring: seq<Tid>, t: Tid, u: Tid)
    requires Distinct(ring) && t in ring && u in ring && t != u
    ensures t in Without(ring, u) && IndexOf(Without(ring, u), t) <= IndexOf(ring, t)
  {
    var i, d := IndexOf(ring, u), IndexOf(ring, t);
    if i < d {
      RemovedIndex(ring, i, d);
    } else {
      WithoutSame(ring, u);
      assert Without(ring, u)[d] == t;
      IndexIs(Without(ring, u), d);
    }
  }

  /** While a thread stays awake, no step but a finish or a direct switch puts another
      thread ahead of it, and every yield takes one away. */
  lemma StepNearer(s: State, step: Step, t: Tid)
    requires Inv(s) && RingKnown(s) && Enabled(s, step) && !Jumps(step) && Waiting(s, t) && s.ring[0] != t
    ensures var s' := StepOf(s, step);
            t in s'.ring && Ahead(s', t) + (if Yields(step) then 1 else 0) <= Ahead(s, t)
  {
    hide Scan, IndexOf, Without, Inv;
    match step
    case Create(u) =>
      NewNotInRing(s, u);
      AppendedIndex(s.ring, t, u);
    case Wake(u) =>
    case Suspend(u) =>
    case Cancel(u) =>
    case Stop(u) =>
    case Reap(u) =>
      AwakeRuns(s, t);
      WithoutIndex(s.ring, t, u);
    case Reschedule => YieldNearer(s, t);
    case Begin =>
      var me := s.ring[0];
      assert me in s.ring;
      YieldNearer(Set(s, me, s.threads[me].(starting := false)), t);
  }

  lemma NewNotInRing(s: State, u: Tid)
    requires RingKnown(s) && u !in s.threads
    ensures u !in s.ring
  {
  }

  lemma YieldNearer(s: State, t: Tid)
    requires RingKnown(s) && Waiting(s, t) && s.ring[0] != t
    ensures t in Scan(s, 1).ring && Ahead(Scan(s, 1), t) < Ahead(s, t)
  {
    ScanNearer(s, 1, Ahead(s, t));
  }

  // ------------------------------------------------------------------
  // Runs

  function Calls(steps: seq<Step>): nat {
    if steps == [] then 0 else Calls(steps[..|steps| - 1]) + if Yields(steps[|steps| - 1]) then 1 else 0
  }

  /** In each of the states up to the k-th, `t` is awake and not current. */
  ghost predicate KeptWaiting(states: seq<State>, t: Tid) {
    forall i {:trigger states[i]} | 0 <= i < |states| :: Waiting(states[i], t) && states[i].ring != [] && states[i].ring[0] != t
  }

  ghost predicate NoJumps(steps: seq<Step>) {
    forall i {:trigger steps[i]} | 0 <= i < |steps| :: !Jumps(steps[i])
  }

  lemma {:induction false} WaitShrinks(states: seq<State>, steps: seq<Step>, t: Tid, k: nat)
    requires Run(states, steps) && Inv(states[0]) && NoJumps(steps) && KeptWaiting(states, t) && k < |states|
    ensures Ahead(states[k], t) + Calls(steps[..k]) <= Ahead(states[0], t)
    decreases k
  {
    hide Inv, Enabled, StepOf, Yields, IndexOf;
    if k > 0 {
      WaitShrinks(states, steps, t, k - 1);
      RunInv(states, steps, k - 1);
      assert steps[..k][..k - 1] == steps[..k - 1];
      assert Next(states[k - 1], steps[k - 1], states[k]);
      StepNearer(states[k - 1], steps[k - 1], t);
    }
  }

  /** Kept waiting, a thread sees fewer yields than there were threads ahead of it. */
  lemma WaitBound(states: seq<State>, steps: seq<Step>, t: Tid)
    requires Run(states, steps) && Inv(states[0]) && NoJumps(steps) && KeptWaiting(states, t)
    ensures Calls(steps) < Ahead(states[0], t) < |states[0].ring|
  {
    WaitShrinks(states, steps, t, |steps|);
    assert steps[..|steps|] == steps;
    assert Waiting(states[|steps|], t);
  }

  /** A thread that stays awake becomes current within as many yields as there are
      threads ahead of it, whatever else the threads do, as long as none finishes and
      none is switched to directly. */
  lemma BoundedWaiting(states: seq<State>, steps: seq<Step>, t: Tid)
    requires Run(states, steps) && Inv(states[0]) && NoJumps(steps)
    requires forall i {:trigger states[i]} | 0 <= i < |states| :: Waiting(states[i], t) && states[i].ring != []
    requires Waiting(states[0], t) && Calls(steps) >= Ahead(states[0], t)
    ensures exists i :: 0 <= i < |states| && states[i].ring != [] && states[i].ring[0] == t
  {
    if KeptWaiting(states, t) {
      WaitBound(states, steps, t);
      assert false;
    }
  }

  // ------------------------------------------------------------------
  // With threads that finish

  ghost function Runners(s: State): set<Tid> {
    set t | t in s.threads && !s.threads[t].hasStopped
  }

  /** A scan leaves the flags of the threads it keeps alone and adds none. */
  lemma {:induction false} ScanAddsNone(s: State, i: nat)
    requires RingKnown(s) && 1 <= i <= |s.ring|
    ensures |Scan(s, i).ring| <= |s.ring| && Runners(Scan(s, i)) <= Runners(s)
    decreases |s.ring| - i
  {
    if i < |s.ring| {
      var u := s.ring[i];
      assert u in s.ring;
      if s.threads[u].awake {
      } else if Dead(s.threads[u]) {
        FreeKnown(s, i);
        ScanAddsNone(Free(s, u), i);
      } else {
        ScanAddsNone(s, i + 1);
      }
    }
  }

  lemma {:induction false} Fewer(a: set<Tid>, b: set<Tid>)
    requires a <= b
    ensures |a| <= |b|
  {
    if a != {} {
      var x :| x in a;
      Fewer(a - {x}, b - {x});
    }
  }

  /** Yields still to come at most: a full ring for each thread that may finish, and
      those ahead. */
  ghost function Patience(s: State, t: Tid, ring: nat): nat
    requires t in s.ring
  {
    |Runners(s)| * ring + Ahead(s, t)
  }

  predicate Closed(step: Step) { !step.Create? && !step.Schedule? }

  lemma StepRunners(s: State, step: Step)
    requires Inv(s) && RingKnown(s) && Enabled(s, step) && Closed(step)
    ensures var s' := StepOf(s, step);
            |s'.ring| <= |s.ring| && |Runners(s')| + (if step == Finish then 1 else 0) <= |Runners(s)|
  {
    hide Inv, Scan, Without, IndexOf, Runners;
    var s', me := StepOf(s, step), s.ring[0];
    assert me in s.ring;
    if step == Reschedule {
      ScanAddsNone(s, 1);
      Fewer(Runners(s'), Runners(s));
    } else if step == Begin {
      var s1 := Set(s, me, s.threads[me].(starting := false));
      ScanAddsNone(s1, 1);
      SameRunners(s, me, s1.threads[me]);
      Fewer(Runners(s'), Runners(s));
    } else if step == Finish {
      FinishedRunner(s);
    } else if step.Reap? {
      WithoutSame(s.ring, step.t);
      assert Runners(s') <= Runners(s) by { FreedRunner(s, step.t); }
      Fewer(Runners(s'), Runners(s));
    } else {
      SameRunners(s, step.t, s'.threads[step.t]);
    }
  }

  lemma SameRunners(s: State, t: Tid, h: Thread)
    requires t in s.threads && h.hasStopped == s.threads[t].hasStopped
    ensures Runners(Set(s, t, h)) == Runners(s)
  {
  }

  lemma FreedRunner(s: State, t: Tid)
    requires Known(s, t)
    ensures Runners(Free(s, t)) <= Runners(s)
  {
  }

  lemma FinishedRunner(s: State)
    requires Inv(s) && RingKnown(s) && Enabled(s, Finish)
    ensures |StepOf(s, Finish).ring| == |s.ring| && |Runners(StepOf(s, Finish))| + 1 == |Runners(s)|
  {
    var me := s.ring[0];
    assert me in s.ring;
    assert me in Runners(s) && Runners(StepOf(s, Finish)) == Runners(s) - {me};
  }

  lemma PatienceKeeps(r: nat, r': nat, ring: nat)
    requires r' <= r
    ensures r' * ring <= r * ring
  {
  }

  lemma PatienceFalls(r: nat, r': nat, a': nat, ring: nat)
    requires r' + 1 <= r && a' < ring
    ensures r' * ring + a' + 1 <= r * ring
  {
    PatienceKeeps(r, r' + 1, ring);
    assert (r' + 1) * ring == r' * ring + ring;
  }

  lemma StepPatience(s: State, step: Step, t: Tid, ring: nat)
    requires Inv(s) && RingKnown(s) && Enabled(s, step) && Closed(step) && Waiting(s, t) && s.ring[0] != t && |s.ring| <= ring
    requires t in StepOf(s, step).ring
    ensures |StepOf(s, step).ring| <= ring
    ensures Patience(StepOf(s, step), t, ring) + (if Yields(step) then 1 else 0) <= Patience(s, t, ring)
  {
    hide Inv, Enabled, StepOf, Runners, IndexOf;
    var s' := StepOf(s, step);
    StepRunners(s, step);
    if step == Finish {
      PatienceFalls(|Runners(s)|, |Runners(s')|, Ahead(s', t), ring);
    } else {
      StepNearer(s, step, t);
      PatienceKeeps(|Runners(s)|, |Runners(s')|, ring);
    }
  }

  ghost predicate ClosedRun(steps: seq<Step>) {
    forall i {:trigger steps[i]} | 0 <= i < |steps| :: Closed(steps[i])
  }

  lemma {:induction false} PatienceShrinks(states: seq<State>, steps: seq<Step>, t: Tid, k: nat)
    requires Run(states, steps) && Inv(states[0]) && ClosedRun(steps) && KeptWaiting(states, t) && k < |states|
    ensures |states[k].ring| <= |states[0].ring|
    ensures Patience(states[k], t, |states[0].ring|) + Calls(steps[..k]) <= Patience(states[0], t, |states[0].ring|)
    decreases k
  {
    hide Inv, Enabled, StepOf, Yields, Patience, Closed, RingKnown;
    if k > 0 {
      PatienceShrinks(states, steps, t, k - 1);
      RunInv(states, steps, k - 1);
      assert steps[..k][..k - 1] == steps[..k - 1];
      assert Next(states[k - 1], steps[k - 1], states[k]);
      StepPatience(states[k - 1], steps[k - 1], t, |states[0].ring|);
    }
  }

  /** Even when threads finish: as long as none is created and none is switched to
      directly, a thread that stays awake is not kept waiting for longer than a full
      ring for each thread that can finish. */
  lemma WaitBoundFinishing(states: seq<State>, steps: seq<Step>, t: Tid)
    requires Run(states, steps) && Inv(states[0]) && ClosedRun(steps) && KeptWaiting(states, t)
    ensures Calls(steps) < |Runners(states[0])| * |states[0].ring| + |states[0].ring|
  {
    PatienceShrinks(states, steps, t, |steps|);
    assert steps[..|steps|] == steps;
    assert Waiting(states[0], t) && Waiting(states[|steps|], t);
    assert Ahead(states[0], t) < |states[0].ring|;
  }

  // ------------------------------------------------------------------
  // Direct switches

  /** The main thread switches directly to the thread before it in the ring, and that
      one yields: this leads back to where it began, and nobody else has run. */
  lemma IsolatedRound(s: State, b: Tid)
    requires Inv(s) && |s.ring| >= 2 && s.ring[0] == MAIN && s.ring[|s.ring| - 1] == b
    requires Waiting(s, MAIN) && Waiting(s, b) && !s.threads[b].starting
    ensures Next(s, Schedule(b), SwitchTo(s, b)) && Next(SwitchTo(s, b), Reschedule, s)
    ensures SwitchTo(s, b).ring != [] && SwitchTo(s, b).ring[0] == b
  {
    hide IndexOf, FreedOk, Rotated;
    var n := |s.ring| - 1;
    AwakeRuns(s, b);
    SwitchInv(s, b);
    IndexIs(s.ring, n);
    RotateBack(s.ring);
    var s1 := SwitchTo(s, b);
    IndexIs(s1.ring, 1);
    assert Scan(s1, 1) == SwitchTo(s1, MAIN);
  }

  lemma RotateBack(ring: seq<Tid>)
    requires |ring| >= 2
    ensures var r := Rotated(ring, |ring| - 1); |r| == |ring| && r[1] == ring[0] && Rotated(r, 1) == ring
  {
    var n := |ring| - 1;
    var r := Rotated(ring, n);
    assert r == [ring[n]] + ring[..n];
    assert Rotated(r, 1) == ring[..n] + [ring[n]];
  }

  ghost function Alternating<T>(a: T, b: T, n: nat): seq<T> {
    seq(n, i requires 0 <= i < n => if i % 2 == 0 then a else b)
  }

  /** It can go on like that for ever: all other threads, awake or not, are kept from
      running. */
  lemma Isolated(s: State, b: Tid, n: nat)
    requires Inv(s) && |s.ring| >= 2 && s.ring[0] == MAIN && s.ring[|s.ring| - 1] == b
    requires Waiting(s, MAIN) && Waiting(s, b) && !s.threads[b].starting
    ensures var states, steps := Alternating(s, SwitchTo(s, b), n + 1), Alternating(Schedule(b), Reschedule, n);
            Run(states, steps) && Calls(steps) == n / 2 && forall t | Waiting(s, t) && t != MAIN && t != b :: KeptWaiting(states, t)
  {
    hide Inv, Next, SwitchTo, IndexOf, Calls, Waiting;
    IsolatedRound(s, b);
    var s1 := SwitchTo(s, b);
    var states, steps := Alternating(s, s1, n + 1), Alternating(Schedule(b), Reschedule, n);
    forall i | 0 <= i < n ensures Next(states[i], steps[i], states[i + 1]) {
    }
    forall t | Waiting(s, t) && t != MAIN && t != b ensures KeptWaiting(states, t) {
      SwitchWaiting(s, b, t);
      assert s1.ring != [];
    }
    CallsAlternating(b, n);
  }

  lemma SwitchWaiting(s: State, b: Tid, t: Tid)
    requires Inv(s) && b in s.ring && Waiting(s, t)
    ensures Waiting(SwitchTo(s, b), t) && SwitchTo(s, b).ring != []
  {
    RotatedSame(s.ring, IndexOf(s.ring, b));
  }

  lemma {:induction false} CallsAlternating(b: Tid, n: nat)
    ensures Calls(Alternating(Schedule(b), Reschedule, n)) == n / 2
  {
    if n > 0 {
      CallsAlternating(b, n - 1);
      assert Alternating(Schedule(b), Reschedule, n)[..n - 1] == Alternating(Schedule(b), Reschedule, n - 1);
    }
  }

  // ------------------------------------------------------------------
  // Waiting for a thread to stop

  /** While a thread waits for `t` in __bthread_stop, nothing but that thread's own reap
      frees `t`: the flag the wait loop looks at stays there to be read. */
  lemma JoinedStays(s: State, step: Step, t: Tid)
    requires Inv(s) && RingKnown(s) && Enabled(s, step) && Known(s, t) && s.threads[t].joined && step != Reap(t)
    ensures var s' := StepOf(s, step); Known(s', t) && s'.threads[t].joined && (s.threads[t].hasStopped ==> s'.threads[t].hasStopped)
  {
    hide Scan, Without, IndexOf;
    var me := s.ring[0];
    assert me in s.ring && ThreadOk(t, s.threads[t]);
    match step
    case Reschedule => ScanKeeps(s, 1, t);
    case Begin => ScanKeeps(Set(s, me, s.threads[me].(starting := false)), 1, t);
    case Reap(u) => WithoutSame(s.ring, u);
    case Schedule(u) => RotatedSame(s.ring, IndexOf(s.ring, u));
    case Finish => RotatedSame(s.ring, IndexOf(s.ring, MAIN));
    case _ =>
  }
}
