/** The targets of the bootchooser: how they are read from the persistent variables,
    kept in order, and written back. */
module BootTargets {
  type Name = string

  /** global.bootchooser.<name>.default_attempts and default_priority */
  datatype Spec = Spec(attempts: nat, priority: nat)

  /** The settings: the listed targets and the policies. */
  datatype Config = Config(names: seq<Name>, spec: Name -> Spec, resetPriorities: bool, resetOnPower: bool,
                           resetWhenSpent: bool, disableWhenSpent: bool, retry: bool)

  /** What survives a reboot. */
  datatype Store = Store(priority: map<Name, nat>, attempts: map<Name, nat>, lastChosen: nat)

  datatype Target = Target(id: nat, name: Name, priority: nat, attempts: nat)

  /** bootchooser_target_ok */
  predicate Ok(t: Target) {
    t.priority != 0 && t.attempts != 0
  }

  /** bootchooser_target_new: a disabled target has no attempts. */
  function TargetNew(cfg: Config, store: Store, name: Name, id: nat): Target {
    var p := if name in store.priority then store.priority[name] else cfg.spec(name).priority;
    var a := if name in store.attempts then store.attempts[name] else cfg.spec(name).attempts;
    Target(id, name, p, if p == 0 then 0 else a)
  }

  // ------------------------------------------------------------------
  // The order

  /** By descending priority, and as listed where priorities are equal. */
  predicate Before(a: Target, b: Target) {
    a.priority > b.priority || (a.priority == b.priority && a.id < b.id)
  }

  ghost predicate Ordered(ts: seq<Target>) {
    forall i, j | 0 <= i < j < |ts| :: Before(ts[i], ts[j])
  }

  /** list_add_sort with bootchooser_target_compare */
  method AddSort(ts: seq<Target>, t: Target) returns (r: seq<Target>, k: nat)
    requires Ordered(ts) && forall i | 0 <= i < |ts| :: ts[i].id < t.id
    ensures Ordered(r) && k <= |ts| && r == ts[..k] + [t] + ts[k..]
  {
    k := 0;
    while k < |ts| && ts[k].priority >= t.priority
      invariant 0 <= k <= |ts| && forall i | 0 <= i < k :: ts[i].priority >= t.priority
    {
      k := k + 1;
    }
    r := ts[..k] + [t] + ts[k..];
    InsertOrdered(ts, t, k);
  }

  lemma InsertOrdered(ts: seq<Target>, t: Target, k: nat)
    requires k <= |ts| && Ordered(ts)
    requires forall i | 0 <= i < k :: Before(ts[i], t)
    requires k < |ts| ==> Before(t, ts[k])
    ensures Ordered(ts[..k] + [t] + ts[k..])
  {
    var r := ts[..k] + [t] + ts[k..];
    forall i, j | 0 <= i < j < |r| ensures Before(r[i], r[j]) {
      if i == k && j > k + 1 {
        assert Before(t, ts[k]) && Before(ts[k], ts[j - 1]);
      }
    }
  }

  /** `ts` are the first `k` listed targets, in order. */
  ghost predicate Listed(cfg: Config, store: Store, k: nat, ts: seq<Target>) {
    && k <= |cfg.names| && |ts| == k && Ordered(ts)
    && (forall i {:trigger ts[i]} | 0 <= i < |ts| :: 1 <= ts[i].id <= k && ts[i] == TargetNew(cfg, store, cfg.names[ts[i].id - 1], ts[i].id))
    && (forall n {:trigger HasId(ts, n)} | 1 <= n <= k :: HasId(ts, n))
  }

  ghost predicate HasId(ts: seq<Target>, n: int) {
    exists i :: 0 <= i < |ts| && ts[i].id == n
  }

  /** The loop of bootchooser_get over the listed names. */
  method LoadTargets(cfg: Config, store: Store) returns (ts: seq<Target>)
    ensures Listed(cfg, store, |cfg.names|, ts)
  {
    ts := [];
    var k := 0;
    while k < |cfg.names|
      invariant 0 <= k <= |cfg.names| && Listed(cfg, store, k, ts)
    {
      ghost var was := ts;
      var t := TargetNew(cfg, store, cfg.names[k], k + 1);
      var at;
      ts, at := AddSort(ts, t);
      ListedMore(cfg, store, k, was, at);
      k := k + 1;
    }
  }

  lemma ListedMore(cfg: Config, store: Store, k: nat, ts: seq<Target>, m: nat)
    requires k < |cfg.names| && Listed(cfg, store, k, ts) && m <= |ts|
    requires Ordered(ts[..m] + [TargetNew(cfg, store, cfg.names[k], k + 1)] + ts[m..])
    ensures Listed(cfg, store, k + 1, ts[..m] + [TargetNew(cfg, store, cfg.names[k], k + 1)] + ts[m..])
  {
    hide TargetNew, Ordered, HasId;
    var t := TargetNew(cfg, store, cfg.names[k], k + 1);
    NewId(cfg, store, cfg.names[k], k + 1);
    var r := ts[..m] + [t] + ts[m..];
    assert forall i {:trigger r[i]} | 0 <= i < |r| :: r[i] == if i < m then ts[i] else if i == m then t else ts[i - 1];
    forall n | 1 <= n <= k + 1 ensures HasId(r, n) {
      InsertedIds(ts, t, m, n);
      assert n == k + 1 || HasId(ts, n);
    }
  }

  lemma InsertedIds(ts: seq<Target>, t: Target, m: nat, n: int)
    requires m <= |ts|
    ensures t.id == n || HasId(ts, n) ==> HasId(ts[..m] + [t] + ts[m..], n)
  {
    var r := ts[..m] + [t] + ts[m..];
    assert r[m] == t;
    if HasId(ts, n) {
      var i :| 0 <= i < |ts| && ts[i].id == n;
      assert r[if i < m then i else i + 1] == ts[i];
    }
  }

  lemma NewId(cfg: Config, store: Store, name: Name, id: nat)
    ensures TargetNew(cfg, store, name, id).id == id
  {
  }

  // ------------------------------------------------------------------
  // Saving

  /** The loop of bootchooser_save over the targets. */
  function Saved(store: Store, ts: seq<Target>): Store {
    if ts == [] then store
    else
      var t := ts[|ts| - 1];
      var s := Saved(store, ts[..|ts| - 1]);
      s.(priority := s.priority[t.name := t.priority], attempts := s.attempts[t.name := t.attempts])
  }

  /** The last target of a name decides what is saved for it. */
  lemma {:induction false} SavedLast(store: Store, ts: seq<Target>, m: nat)
    requires m < |ts| && forall i | m < i < |ts| :: ts[i].name != ts[m].name
    ensures var s := Saved(store, ts);
            && ts[m].name in s.priority && s.priority[ts[m].name] == ts[m].priority
            && ts[m].name in s.attempts && s.attempts[ts[m].name] == ts[m].attempts
  {
    if m < |ts| - 1 {
      SavedLast(store, ts[..|ts| - 1], m);
    }
  }

  /** What no target is named after stays. */
  lemma {:induction false} SavedElse(store: Store, ts: seq<Target>, n: Name)
    requires forall i | 0 <= i < |ts| :: ts[i].name != n
    ensures var s := Saved(store, ts);
            && s.lastChosen == store.lastChosen
            && (n in s.priority <==> n in store.priority) && (n in s.attempts <==> n in store.attempts)
            && (n in store.priority ==> s.priority[n] == store.priority[n]) && (n in store.attempts ==> s.attempts[n] == store.attempts[n])
  {
    if ts != [] {
      SavedElse(store, ts[..|ts| - 1], n);
    }
  }

  lemma {:induction false} LastNamed(ts: seq<Target>, n: Name, i: nat) returns (m: nat)
    requires i < |ts| && ts[i].name == n
    ensures i <= m < |ts| && ts[m].name == n && forall k | m < k < |ts| :: ts[k].name != n
    decreases |ts| - i
  {
    m := i;
    if k :| i < k < |ts| && ts[k].name == n {
      m := LastNamed(ts, n, k);
    }
  }
}
