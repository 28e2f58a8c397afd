/** The attempts that are left, as seen across reboots: every boot takes one from a
    target of the highest priority that has any. */
module BootBudget {
  import opened BootTargets

  datatype Share = Share(priority: nat, attempts: nat)

  type Budget = map<Name, Share>

  /** The targets that can be booted according to the persistent variables. */
  ghost function BudgetOf(cfg: Config, store: Store): Budget {
    map n | n in cfg.names && Ok(TargetNew(cfg, store, n, 0)) ::
      Share(TargetNew(cfg, store, n, 0).priority, TargetNew(cfg, store, n, 0).attempts)
  }

  ghost predicate Matching(b: Budget, t: Target) {
    if Ok(t) then t.name in b && b[t.name] == Share(t.priority, t.attempts) else t.name !in b
  }

  /** The targets in memory offer exactly the budget. */
  ghost predicate Offers(cfg: Config, ts: seq<Target>, b: Budget) {
    && OkDiffer(ts)
    && (forall i {:trigger ts[i]} | 0 <= i < |ts| :: ts[i].name in cfg.names && Matching(b, ts[i]))
    && (forall n {:trigger HasName(ts, n)} | n in cfg.names :: HasName(ts, n))
    && (forall n {:trigger n in b} | n in b :: n in cfg.names)
  }

  /** Only targets that cannot be booted share a name. */
  ghost predicate OkDiffer(ts: seq<Target>) {
    forall i, j | 0 <= i < j < |ts| && ts[i].name == ts[j].name :: !Ok(ts[i]) && !Ok(ts[j])
  }

  ghost predicate HasName(ts: seq<Target>, n: Name) {
    exists i :: 0 <= i < |ts| && ts[i].name == n
  }

  /** Targets that can be booted are in the order of their priorities. */
  ghost predicate OkSorted(ts: seq<Target>) {
    forall i, j | 0 <= i < j < |ts| && Ok(ts[i]) && Ok(ts[j]) :: ts[i].priority >= ts[j].priority
  }

  /** No name that can be booted is listed twice. */
  ghost predicate NamedOnce(cfg: Config, store: Store) {
    forall i, j | 0 <= i < j < |cfg.names| && cfg.names[i] == cfg.names[j] :: !Ok(TargetNew(cfg, store, cfg.names[i], 0))
  }

  // ------------------------------------------------------------------
  // Spending

  ghost predicate Best(b: Budget, n: Name) {
    n in b && forall m {:trigger m in b} | m in b :: b[m].priority <= b[n].priority
  }

  ghost function Spend(b: Budget, n: Name): Budget
    requires n in b
  {
    if b[n].attempts <= 1 then b - {n} else b[n := Share(b[n].priority, b[n].attempts - 1)]
  }

  /** Booting the targets in the log, one after the other, leads from `b` to `b'`. */
  ghost predicate Boots(b: Budget, log: seq<Name>, b': Budget)
    decreases log
  {
    if log == [] then b == b' else Best(b, log[0]) && Boots(Spend(b, log[0]), log[1..], b')
  }

  ghost function Left(b: Budget, n: Name): nat {
    if n in b then b[n].attempts else 0
  }

  function Count(log: seq<Name>, n: Name): nat {
    if log == [] then 0 else (if log[0] == n then 1 else 0) + Count(log[1..], n)
  }

  ghost predicate Positive(b: Budget) {
    forall n {:trigger n in b} | n in b :: b[n].attempts > 0
  }

  /** Every boot of a target costs it one attempt, and nothing else does. */
  lemma {:induction false} AttemptsSpent(b: Budget, log: seq<Name>, b': Budget, n: Name)
    requires Boots(b, log, b') && Positive(b)
    ensures Count(log, n) + Left(b', n) == Left(b, n)
    decreases log
  {
    if log != [] {
      AttemptsSpent(Spend(b, log[0]), log[1..], b', n);
    }
  }

  /** Later boots are of targets that could be booted from the start, with the priority
      they had. */
  lemma {:induction false} StillThere(b: Budget, log: seq<Name>, b': Budget, i: nat)
    requires Boots(b, log, b') && i < |log|
    ensures log[i] in b
    decreases log
  {
    if i > 0 {
      StillThere(Spend(b, log[0]), log[1..], b', i - 1);
    }
  }

  /** Priorities never rise. */
  lemma {:induction false} PrioritiesFall(b: Budget, log: seq<Name>, b': Budget, i: nat, j: nat)
    requires Boots(b, log, b') && i < j < |log|
    ensures log[i] in b && log[j] in b && b[log[i]].priority >= b[log[j]].priority
    decreases log
  {
    StillThere(b, log, b', i);
    StillThere(b, log, b', j);
    if i > 0 {
      var c := Spend(b, log[0]);
      PrioritiesFall(c, log[1..], b', i - 1, j - 1);
      assert log[1..][i - 1] == log[i] && log[1..][j - 1] == log[j];
      assert forall m | m in c :: c[m].priority == b[m].priority;
    }
  }

  lemma {:induction false} BootsJoin(b: Budget, l1: seq<Name>, c: Budget, l2: seq<Name>, d: Budget)
    requires Boots(b, l1, c) && Boots(c, l2, d)
    ensures Boots(b, l1 + l2, d)
    decreases l1
  {
    if l1 == [] {
      assert l1 + l2 == l2;
    } else {
      BootsJoin(Spend(b, l1[0]), l1[1..], c, l2, d);
      assert (l1 + l2)[1..] == l1[1..] + l2;
    }
  }

  // ------------------------------------------------------------------
  // The budget in memory and in the store

  lemma LoadOffers(cfg: Config, store: Store, ts: seq<Target>)
    requires Listed(cfg, store, |cfg.names|, ts) && NamedOnce(cfg, store)
    ensures Offers(cfg, ts, BudgetOf(cfg, store)) && OkSorted(ts)
  {
    hide TargetNew, Before;
    var b := BudgetOf(cfg, store);
    forall i | 0 <= i < |ts| ensures ts[i].name in cfg.names && Matching(b, ts[i]) {
      LoadMatches(cfg, store, ts, i);
    }
    forall n | n in cfg.names ensures HasName(ts, n) {
      LoadNames(cfg, store, ts, n);
    }
    forall i, j | 0 <= i < j < |ts|
      ensures ts[i].priority >= ts[j].priority && (ts[i].name == ts[j].name ==> !Ok(ts[i]) && !Ok(ts[j]))
    {
      IdsDiffer(cfg, store, ts, i, j);
    }
  }

  lemma LoadMatches(cfg: Config, store: Store, ts: seq<Target>, i: nat)
    requires Listed(cfg, store, |cfg.names|, ts) && i < |ts|
    ensures ts[i].name in cfg.names && Matching(BudgetOf(cfg, store), ts[i])
  {
    var n := cfg.names[ts[i].id - 1];
    assert n in cfg.names && ts[i].name == n;
  }

  lemma LoadNames(cfg: Config, store: Store, ts: seq<Target>, n: Name)
    requires Listed(cfg, store, |cfg.names|, ts) && n in cfg.names
    ensures HasName(ts, n)
  {
    var k :| 0 <= k < |cfg.names| && cfg.names[k] == n;
    assert HasId(ts, k + 1);
    var i :| 0 <= i < |ts| && ts[i].id == k + 1;
    assert ts[i].name == n;
  }

  /** Targets of one name were listed twice, and are alike. */
  lemma IdsDiffer(cfg: Config, store: Store, ts: seq<Target>, i: nat, j: nat)
    requires Listed(cfg, store, |cfg.names|, ts) && NamedOnce(cfg, store) && i < j < |ts|
    ensures ts[i].priority >= ts[j].priority && (ts[i].name == ts[j].name ==> !Ok(ts[i]) && !Ok(ts[j]))
  {
    assert Before(ts[i], ts[j]);
    if ts[i].name == ts[j].name {
      var a, b := ts[i].id - 1, ts[j].id - 1;
      assert cfg.names[a] == ts[i].name && cfg.names[b] == ts[j].name && a != b;
      assert !Ok(TargetNew(cfg, store, cfg.names[if a < b then a else b], 0));
    }
  }

  /** bootchooser_target_disable on the targets that have no attempts left */
  function Disabled(t: Target): Target {
    if t.attempts == 0 then t.(priority := 0) else t
  }

  lemma DisableOffers(cfg: Config, ts: seq<Target>, r: seq<Target>, b: Budget)
    requires Offers(cfg, ts, b) && OkSorted(ts)
    requires |r| == |ts| && forall i {:trigger r[i]} | 0 <= i < |r| :: r[i] == Disabled(ts[i])
    ensures Offers(cfg, r, b) && OkSorted(r)
  {
    hide Matching, HasName;
    forall i | 0 <= i < |r| ensures Ok(r[i]) == Ok(ts[i]) && r[i].name == ts[i].name {
    }
    forall i | 0 <= i < |r| ensures r[i].name in cfg.names && Matching(b, r[i]) {
      assert Matching(b, ts[i]);
      DisableMatches(b, ts[i]);
    }
    forall n | n in cfg.names ensures HasName(r, n) {
      SameNames(ts, r, n);
    }
  }

  lemma DisableMatches(b: Budget, t: Target)
    requires Matching(b, t)
    ensures Matching(b, Disabled(t))
  {
  }

  lemma SameNames(ts: seq<Target>, r: seq<Target>, n: Name)
    requires |r| == |ts| && HasName(ts, n) && forall i {:trigger r[i]} | 0 <= i < |r| :: r[i].name == ts[i].name
    ensures HasName(r, n)
  {
    var i :| 0 <= i < |ts| && ts[i].name == n;
    assert r[i].name == n;
  }

  /** The first target that can be booted has the highest priority there is. */
  lemma FirstIsBest(cfg: Config, ts: seq<Target>, b: Budget, k: nat)
    requires Offers(cfg, ts, b) && OkSorted(ts) && k < |ts| && Ok(ts[k]) && forall i | 0 <= i < k :: !Ok(ts[i])
    ensures Best(b, ts[k].name)
  {
    forall m | m in b ensures b[m].priority <= b[ts[k].name].priority {
      assert HasName(ts, m);
      var i :| 0 <= i < |ts| && ts[i].name == m;
      assert Matching(b, ts[i]) && Matching(b, ts[k]);
    }
  }

  lemma NoneLeft(cfg: Config, ts: seq<Target>, b: Budget)
    requires Offers(cfg, ts, b) && forall i | 0 <= i < |ts| :: !Ok(ts[i])
    ensures b == map[]
  {
    forall m | m in cfg.names ensures m !in b {
      assert HasName(ts, m);
      var i :| 0 <= i < |ts| && ts[i].name == m;
      assert Matching(b, ts[i]);
    }
  }

  function Tried(t: Target): Target
    requires Ok(t)
  {
    t.(attempts := t.attempts - 1)
  }

  /** Taking an attempt from a target in memory takes it from the budget. */
  lemma TryOffers(cfg: Config, ts: seq<Target>, b: Budget, k: nat)
    requires Offers(cfg, ts, b) && OkSorted(ts) && k < |ts| && Ok(ts[k])
    ensures ts[k].name in b && Offers(cfg, ts[k := Tried(ts[k])], Spend(b, ts[k].name)) && OkSorted(ts[k := Tried(ts[k])])
  {
    assert Matching(b, ts[k]);
    var r, c := ts[k := Tried(ts[k])], Spend(b, ts[k].name);
    forall i | 0 <= i < |r| ensures r[i].name in cfg.names && Matching(c, r[i]) {
      assert Matching(b, ts[i]);
    }
    forall n | n in cfg.names ensures HasName(r, n) {
      assert HasName(ts, n);
      var i :| 0 <= i < |ts| && ts[i].name == n;
      assert r[i].name == n;
    }
  }

  /** What is saved is what is offered. */
  lemma SaveBudget(cfg: Config, store: Store, ts: seq<Target>, b: Budget)
    requires Offers(cfg, ts, b)
    ensures BudgetOf(cfg, Saved(store, ts)) == b
  {
    var s := Saved(store, ts);
    var c := BudgetOf(cfg, s);
    forall n | n in cfg.names ensures (n in c <==> n in b) && (n in c ==> c[n] == b[n]) {
      assert HasName(ts, n);
      var i :| 0 <= i < |ts| && ts[i].name == n;
      var m := LastNamed(ts, n, i);
      SavedLast(store, ts, m);
      assert Matching(b, ts[m]);
    }
  }

  lemma BudgetPositive(cfg: Config, store: Store)
    ensures Positive(BudgetOf(cfg, store))
  {
  }

  /** Spending brings no target back, so what is named once stays named once. */
  lemma {:induction false} BootsShrink(b: Budget, log: seq<Name>, b': Budget)
    requires Boots(b, log, b')
    ensures b'.Keys <= b.Keys
    decreases log
  {
    if log != [] {
      BootsShrink(Spend(b, log[0]), log[1..], b');
    }
  }

  lemma StillNamedOnce(cfg: Config, store: Store, log: seq<Name>, store': Store)
    requires NamedOnce(cfg, store) && Boots(BudgetOf(cfg, store), log, BudgetOf(cfg, store'))
    ensures NamedOnce(cfg, store')
  {
    hide TargetNew, Boots;
    BootsShrink(BudgetOf(cfg, store), log, BudgetOf(cfg, store'));
    forall i, j | 0 <= i < j < |cfg.names| && cfg.names[i] == cfg.names[j] ensures !Ok(TargetNew(cfg, store', cfg.names[i], 0)) {
      var n := cfg.names[i];
      assert n in cfg.names;
      assert n in BudgetOf(cfg, store') ==> n in BudgetOf(cfg, store);
    }
  }
}
