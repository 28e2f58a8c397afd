/** The cooperative threads as a state machine: a ring of threads, one of them current,
    and the steps the current thread can take. */
module ThreadRing {
  type Tid = nat

  const MAIN: Tid := 0

  /** The flag bits of a thread; `starting` until it first runs, `joined` while some thread
      waits for it in __bthread_stop. */
  datatype Thread = Thread(awake: bool, shouldStop: bool, shouldClean: bool, hasStopped: bool, starting: bool, joined: bool)

  /** The ring is listed from the current thread on, in the order of the list.  Threads
      that have been freed are kept with the flags they had. */
  datatype State = State(ring: seq<Tid>, threads: map<Tid, Thread>, freed: seq<(Tid, Thread)>) {
    function Current(): Tid
      requires ring != []
    {
      ring[0]
    }
  }

  datatype Step =
    | Create(t: Tid) | Wake(t: Tid) | Suspend(t: Tid) | Cancel(t: Tid)
    | Stop(t: Tid) | Reap(t: Tid)
    | Reschedule | Schedule(t: Tid) | Begin | Finish

  // ------------------------------------------------------------------
  // The invariant

  ghost predicate Distinct(ring: seq<Tid>) {
    forall i, j | 0 <= i < j < |ring| :: ring[i] != ring[j]
  }

  ghost predicate ThreadOk(t: Tid, h: Thread) {
    && (h.hasStopped ==> !h.awake && !h.starting)
    && (h.joined ==> !h.shouldClean)
    && (t == MAIN ==> !h.hasStopped && !h.starting)
  }

  /** Every freed thread had stopped, none was freed twice, and none is still known. */
  ghost predicate FreedOk(s: State) {
    && (forall i {:trigger s.freed[i]} | 0 <= i < |s.freed| :: s.freed[i].1.hasStopped && s.freed[i].0 !in s.threads)
    && forall i, j | 0 <= i < j < |s.freed| :: s.freed[i].0 != s.freed[j].0
  }

  ghost predicate Inv(s: State) {
    && s.ring != [] && Distinct(s.ring) && MAIN in s.ring
    && (forall t {:trigger t in s.ring} {:trigger t in s.threads} :: t in s.ring <==> t in s.threads)
    && (forall t {:trigger s.threads[t]} | t in s.threads :: ThreadOk(t, s.threads[t]))
    && !s.threads[s.ring[0]].hasStopped
    && FreedOk(s)
  }

  // ------------------------------------------------------------------
  // The steps

  /** Enough to take a step at all. */
  ghost predicate RingKnown(s: State) {
    s.ring != [] && Distinct(s.ring) && forall t {:trigger t in s.ring} | t in s.ring :: t in s.threads
  }

  ghost predicate Known(s: State, t: Tid) {
    t in s.ring && t in s.threads
  }

  ghost predicate WasFreed(s: State, t: Tid) {
    exists i :: 0 <= i < |s.freed| && s.freed[i].0 == t
  }

  /** When the current thread may take a step.  A thread that runs for the first time is
      in the trampoline and can only begin.  A thread that has stopped must not be woken
      or switched to, and one that is waited for must not also be cancelled. */
  ghost predicate Enabled(s: State, step: Step)
    requires RingKnown(s)
  {
    var me := s.ring[0];
    assert me in s.ring;
    s.threads[me].starting == (step == Begin) &&
    match step
    case Create(t) => t !in s.threads && !WasFreed(s, t)
    case Wake(t) => Known(s, t) && !s.threads[t].hasStopped
    case Suspend(t) => Known(s, t)
    case Cancel(t) => Known(s, t) && !s.threads[t].joined
    case Stop(t) => Known(s, t) && t != me && t != MAIN && !s.threads[t].shouldClean && !s.threads[t].joined
    case Reap(t) => Known(s, t) && s.threads[t].joined && s.threads[t].hasStopped
    case Reschedule => true
    case Schedule(t) => Known(s, t) && !s.threads[t].hasStopped
    case Begin => true
    case Finish => me != MAIN && Known(s, MAIN)
  }

  function Set(s: State, t: Tid, h: Thread): State {
    s.(threads := s.threads[t := h])
  }

  /** Where `t` is, counted from the current thread. */
  function IndexOf(ring: seq<Tid>, t: Tid): (i: nat)
    requires t in ring
    ensures i < |ring| && ring[i] == t && t !in ring[..i]
  {
    if ring[0] == t then 0 else 1 + IndexOf(ring[1..], t)
  }

  function Rotated(ring: seq<Tid>, i: nat): seq<Tid>
    requires i <= |ring|
  {
    ring[i..] + ring[..i]
  }

  /** The context switch: the ring stays, and is listed from `t` on. */
  function SwitchTo(s: State, t: Tid): State
    requires t in s.ring
  {
    s.(ring := Rotated(s.ring, IndexOf(s.ring, t)))
  }

  function Without(ring: seq<Tid>, t: Tid): seq<Tid>
    requires t in ring
  {
    var i := IndexOf(ring, t);
    ring[..i] + ring[i + 1..]
  }

  /** list_del and bthread_free */
  function Free(s: State, t: Tid): State
    requires t in s.ring && t in s.threads
  {
    State(Without(s.ring, t), s.threads - {t}, s.freed + [(t, s.threads[t])])
  }

  /** What the scan of bthread_reschedule clears away. */
  predicate Dead(h: Thread) {
    !h.awake && h.hasStopped && h.shouldClean
  }

  /** The loop of bthread_reschedule from the i-th thread after the current one on: the
      first that is awake is switched to; those that have stopped and are to be cleaned
      up are freed on the way. */
  ghost function Scan(s: State, i: nat): State
    requires RingKnown(s) && 1 <= i <= |s.ring|
    decreases |s.ring| - i
  {
    if i == |s.ring| then s else
    var t := s.ring[i];
    assert t in s.ring;
    if s.threads[t].awake then SwitchTo(s, t)
    else if Dead(s.threads[t]) then FreeKnown(s, i); Scan(Free(s, t), i)
    else Scan(s, i + 1)
  }

  lemma IndexIs(ring: seq<Tid>, i: nat)
    requires Distinct(ring) && i < |ring|
    ensures ring[i] in ring && IndexOf(ring, ring[i]) == i
  {
    assert ring[i] in ring;
    var k := IndexOf(ring, ring[i]);
    assert ring[k] == ring[i];
  }

  lemma FreeKnown(s: State, i: nat)
    requires RingKnown(s) && 1 <= i < |s.ring|
    ensures s.ring[i] in s.ring && s.ring[i] in s.threads
    ensures var s' := Free(s, s.ring[i]); RingKnown(s') && s'.ring == s.ring[..i] + s.ring[i + 1..]
  {
    var t := s.ring[i];
    IndexIs(s.ring, i);
    var r := s.ring[..i] + s.ring[i + 1..];
    forall u | u in r ensures u in s.threads && u != t {
      var k :| 0 <= k < |r| && r[k] == u;
      assert u == s.ring[if k < i then k else k + 1];
      assert u in s.ring;
    }
  }

  ghost function StepOf(s: State, step: Step): State
    requires RingKnown(s) && Enabled(s, step)
  {
    var me := s.ring[0];
    assert me in s.ring;
    match step
    case Create(t) => State(s.ring + [t], s.threads[t := Thread(false, false, false, false, true, false)], s.freed)
    case Wake(t) => Set(s, t, s.threads[t].(awake := true))
    case Suspend(t) => Set(s, t, s.threads[t].(awake := false))
    case Cancel(t) => Set(s, t, s.threads[t].(shouldStop := true, shouldClean := true))
    case Stop(t) => Set(s, t, s.threads[t].(shouldStop := true, joined := true))
    case Reap(t) => Free(s, t)
    case Reschedule => Scan(s, 1)
    case Schedule(t) => SwitchTo(s, t)
    case Begin => Scan(Set(s, me, s.threads[me].(starting := false)), 1)
    case Finish => SwitchTo(Set(s, me, s.threads[me].(awake := false, hasStopped := true)), MAIN)
  }
}
