/** The bootchooser itself: building the target list, choosing, saving and retrying. */
module Bootchooser {
  import opened BootTargets
  import opened BootBudget

  datatype Result = Success | Einval | Enoent | Enodev | Error(code: int)

  /** What comes of trying to boot a target: nothing bootable is found, or what the last
      boot entry tried returns, which can be any error, -ENOENT included. */
  datatype Outcome = Nothing | Entry(ret: Result)

  // ------------------------------------------------------------------
  // The policies of bootchooser_get

  function Restored(cfg: Config, t: Target): Target {
    t.(attempts := cfg.spec(t.name).attempts)
  }

  /** bootchooser_reset_attempts, for one target */
  function AttemptsReset(cfg: Config, t: Target): Target {
    if t.priority != 0 then Restored(cfg, t) else t
  }

  /** bootchooser_reset_priorities, for one target */
  function PriorityReset(cfg: Config, t: Target): Target {
    t.(priority := cfg.spec(t.name).priority)
  }

  function EachAttemptsReset(cfg: Config, ts: seq<Target>): seq<Target> {
    seq(|ts|, i requires 0 <= i < |ts| => AttemptsReset(cfg, ts[i]))
  }

  function EachPriorityReset(cfg: Config, ts: seq<Target>): seq<Target> {
    seq(|ts|, i requires 0 <= i < |ts| => PriorityReset(cfg, ts[i]))
  }

  function EachDisabled(ts: seq<Target>): seq<Target> {
    seq(|ts|, i requires 0 <= i < |ts| => Disabled(ts[i]))
  }

  predicate AllDisabled(ts: seq<Target>) {
    forall i {:trigger ts[i]} | 0 <= i < |ts| :: ts[i].priority == 0
  }

  predicate AllSpent(ts: seq<Target>) {
    forall i {:trigger ts[i]} | 0 <= i < |ts| :: ts[i].attempts == 0
  }

  function RestoredId(cfg: Config, ts: seq<Target>, id: nat): seq<Target> {
    seq(|ts|, i requires 0 <= i < |ts| => if ts[i].id == id then Restored(cfg, ts[i]) else ts[i])
  }

  /** The resets of priorities and attempts. */
  function WithResets(cfg: Config, ts: seq<Target>, powerOn: bool): seq<Target> {
    var a := if cfg.resetPriorities && AllDisabled(ts) then EachPriorityReset(cfg, ts) else ts;
    var b := if cfg.resetOnPower && powerOn then EachAttemptsReset(cfg, a) else a;
    if cfg.resetWhenSpent && AllSpent(b) then EachAttemptsReset(cfg, b) else b
  }

  /** What the policies make of the targets that were read. */
  function Prepared(cfg: Config, ts: seq<Target>, powerOn: bool, last: nat, successful: bool): seq<Target> {
    var c := WithResets(cfg, ts, powerOn);
    var d := if last > 0 && successful then RestoredId(cfg, c, last) else c;
    if cfg.disableWhenSpent then EachDisabled(d) else d
  }

  ghost predicate SameIds(r: seq<Target>, ts: seq<Target>) {
    |r| == |ts| && forall i {:trigger r[i]} {:trigger ts[i]} | 0 <= i < |r| :: r[i].id == ts[i].id
  }

  lemma ResetIds(cfg: Config, ts: seq<Target>)
    ensures SameIds(EachPriorityReset(cfg, ts), ts) && SameIds(EachAttemptsReset(cfg, ts), ts)
  {
  }

  /** The resets keep every target in its place. */
  lemma WithResetsIds(cfg: Config, ts: seq<Target>, powerOn: bool)
    ensures SameIds(WithResets(cfg, ts, powerOn), ts)
  {
    hide EachPriorityReset, EachAttemptsReset, AllDisabled, AllSpent;
    var a := if cfg.resetPriorities && AllDisabled(ts) then EachPriorityReset(cfg, ts) else ts;
    var b := if cfg.resetOnPower && powerOn then EachAttemptsReset(cfg, a) else a;
    ResetIds(cfg, ts);
    ResetIds(cfg, a);
    ResetIds(cfg, b);
  }

  // ------------------------------------------------------------------
  // What the list holds after bootchooser_get, target by target

  /** A target as the variables say: what they do not hold is the default, and a disabled
      target has no attempts. */
  ghost predicate AsStored(cfg: Config, store: Store, t: Target) {
    var d := cfg.spec(t.name);
    && 1 <= t.id <= |cfg.names| && t.name == cfg.names[t.id - 1]
    && (t.name in store.priority ==> t.priority == store.priority[t.name])
    && (t.name !in store.priority ==> t.priority == d.priority)
    && (t.priority == 0 ==> t.attempts == 0)
    && (t.priority != 0 && t.name in store.attempts ==> t.attempts == store.attempts[t.name])
    && (t.priority != 0 && t.name !in store.attempts ==> t.attempts == d.attempts)
  }

  /** All were disabled, and their priorities are the defaults again. */
  ghost predicate Revived(cfg: Config, ts: seq<Target>) {
    cfg.resetPriorities && forall j {:trigger ts[j]} | 0 <= j < |ts| :: ts[j].priority == 0
  }

  ghost predicate Enabled(cfg: Config, ts: seq<Target>, t: Target) {
    if Revived(cfg, ts) then cfg.spec(t.name).priority != 0 else t.priority != 0
  }

  /** No attempts are left, not even after a reset at power-on. */
  ghost predicate NoAttempts(cfg: Config, ts: seq<Target>, powerOn: bool) {
    forall j {:trigger ts[j]} | 0 <= j < |ts| ::
      if cfg.resetOnPower && powerOn && Enabled(cfg, ts, ts[j]) then cfg.spec(ts[j].name).attempts == 0 else ts[j].attempts == 0
  }

  /** Attempts are the default again for enabled targets at power-on or when none are left
      at all, and for the last chosen target after a successful boot. */
  ghost predicate Renewed(cfg: Config, ts: seq<Target>, powerOn: bool, last: nat, successful: bool, t: Target) {
    || (Enabled(cfg, ts, t) && cfg.resetOnPower && powerOn)
    || (Enabled(cfg, ts, t) && cfg.resetWhenSpent && NoAttempts(cfg, ts, powerOn))
    || (successful && 0 < last == t.id)
  }

  /** What the policies make of the target `t` of `ts`. */
  ghost predicate PolicyOf(cfg: Config, ts: seq<Target>, powerOn: bool, last: nat, successful: bool, t: Target, r: Target) {
    var d := cfg.spec(t.name);
    && r.id == t.id && r.name == t.name
    && r.attempts == (if Renewed(cfg, ts, powerOn, last, successful, t) then d.attempts else t.attempts)
    && r.priority == (if cfg.disableWhenSpent && r.attempts == 0 then 0 else if Revived(cfg, ts) then d.priority else t.priority)
  }

  lemma ListedAsStored(cfg: Config, store: Store, ts: seq<Target>)
    requires Listed(cfg, store, |cfg.names|, ts)
    ensures forall i {:trigger ts[i]} | 0 <= i < |ts| :: AsStored(cfg, store, ts[i])
  {
  }

  /** By descending priority and, among equals, as listed. */
  lemma ListedInOrder(cfg: Config, store: Store, ts: seq<Target>)
    requires Listed(cfg, store, |cfg.names|, ts)
    ensures forall i, j | 0 <= i < j < |ts| :: ts[i].priority > ts[j].priority || (ts[i].priority == ts[j].priority && ts[i].id < ts[j].id)
  {
    forall i, j | 0 <= i < j < |ts| ensures ts[i].priority > ts[j].priority || (ts[i].priority == ts[j].priority && ts[i].id < ts[j].id) {
      assert Before(ts[i], ts[j]);
    }
  }

  lemma ListedLength(cfg: Config, store: Store, ts: seq<Target>)
    requires Listed(cfg, store, |cfg.names|, ts)
    ensures |ts| == |cfg.names|
  {
  }

  lemma PowerResets(cfg: Config, ts: seq<Target>, powerOn: bool)
    ensures var a := if cfg.resetPriorities && AllDisabled(ts) then EachPriorityReset(cfg, ts) else ts;
            var b := if cfg.resetOnPower && powerOn then EachAttemptsReset(cfg, a) else a;
            && |b| == |ts| && (AllSpent(b) <==> NoAttempts(cfg, ts, powerOn))
            && forall i {:trigger b[i]} | 0 <= i < |ts| ::
                 && b[i].id == ts[i].id && b[i].name == ts[i].name
                 && b[i].priority == (if Revived(cfg, ts) then cfg.spec(ts[i].name).priority else ts[i].priority)
                 && b[i].attempts == if cfg.resetOnPower && powerOn && Enabled(cfg, ts, ts[i]) then cfg.spec(ts[i].name).attempts else ts[i].attempts
  {
    var a := if cfg.resetPriorities && AllDisabled(ts) then EachPriorityReset(cfg, ts) else ts;
    var b := if cfg.resetOnPower && powerOn then EachAttemptsReset(cfg, a) else a;
    if AllSpent(b) {
      forall j | 0 <= j < |ts|
        ensures if cfg.resetOnPower && powerOn && Enabled(cfg, ts, ts[j]) then cfg.spec(ts[j].name).attempts == 0 else ts[j].attempts == 0
      {
        assert b[j].attempts == 0;
      }
    }
    if NoAttempts(cfg, ts, powerOn) {
      forall j | 0 <= j < |b| ensures b[j].attempts == 0 {
        var t := ts[j];
        assert if cfg.resetOnPower && powerOn && Enabled(cfg, ts, t) then cfg.spec(t.name).attempts == 0 else t.attempts == 0;
      }
    }
  }

  lemma ResetsApplied(cfg: Config, ts: seq<Target>, powerOn: bool)
    ensures var c := WithResets(cfg, ts, powerOn);
            |c| == |ts| && forall i {:trigger c[i]} | 0 <= i < |ts| ::
              && c[i].id == ts[i].id && c[i].name == ts[i].name
              && c[i].priority == (if Revived(cfg, ts) then cfg.spec(ts[i].name).priority else ts[i].priority)
              && c[i].attempts == if Renewed(cfg, ts, powerOn, 0, false, ts[i]) then cfg.spec(ts[i].name).attempts else ts[i].attempts
  {
    hide AllSpent, NoAttempts, AllDisabled, Revived;
    PowerResets(cfg, ts, powerOn);
  }

  lemma PolicyApplied(cfg: Config, ts: seq<Target>, powerOn: bool, last: nat, successful: bool)
    ensures var r := Prepared(cfg, ts, powerOn, last, successful);
            |r| == |ts| && forall i {:trigger r[i]} | 0 <= i < |ts| :: PolicyOf(cfg, ts, powerOn, last, successful, ts[i], r[i])
  {
    hide WithResets, Revived, NoAttempts, Enabled;
    ResetsApplied(cfg, ts, powerOn);
  }

  lemma RestoreOne(cfg: Config, ts: seq<Target>, k: nat)
    requires k < |ts| && forall i, j | 0 <= i < j < |ts| :: ts[i].id != ts[j].id
    ensures RestoredId(cfg, ts, ts[k].id) == ts[k := Restored(cfg, ts[k])]
  {
  }

  lemma ListedIds(cfg: Config, store: Store, ts: seq<Target>, c: seq<Target>)
    requires Listed(cfg, store, |cfg.names|, ts) && SameIds(c, ts)
    ensures forall i, j | 0 <= i < j < |c| :: c[i].id != c[j].id
    ensures forall id: nat :: HasId(c, id) <==> 1 <= id <= |ts|
  {
    forall i, j | 0 <= i < j < |c| ensures c[i].id != c[j].id {
      assert Before(ts[i], ts[j]);
    }
    forall id: nat ensures HasId(c, id) <==> 1 <= id <= |ts| {
      if 1 <= id <= |ts| {
        assert HasId(ts, id);
        var i :| 0 <= i < |ts| && ts[i].id == id;
        assert c[i].id == id;
      }
      if HasId(c, id) {
        var i :| 0 <= i < |c| && c[i].id == id;
        assert ts[i].id == id;
      }
    }
  }

  /** None of the policies gives anything back. */
  predicate Strict(cfg: Config) {
    !cfg.resetPriorities && !cfg.resetOnPower && !cfg.resetWhenSpent
  }

  ghost function SavedAll(store: Store, ts: seq<Target>, last: nat): Store {
    Saved(if last > 0 then store.(lastChosen := last) else store, ts)
  }

  /** The attempts of all targets that can be booted. */
  function Remaining(ts: seq<Target>): nat {
    if ts == [] then 0 else Remaining(ts[..|ts| - 1]) + if Ok(ts[|ts| - 1]) then ts[|ts| - 1].attempts else 0
  }

  lemma {:induction false} TriedLess(ts: seq<Target>, k: nat)
    requires k < |ts| && Ok(ts[k])
    ensures Remaining(ts[k := Tried(ts[k])]) == Remaining(ts) - 1
  {
    var n := |ts| - 1;
    var r := ts[k := Tried(ts[k])];
    if k == n {
      assert r[..n] == ts[..n];
    } else {
      TriedLess(ts[..n], k);
      assert r[..n] == ts[..n][k := Tried(ts[k])];
    }
  }

  lemma BootStep(cfg: Config, ts: seq<Target>, k: nat, b: Budget, log: seq<Name>, c: Budget)
    requires Offers(cfg, ts, c) && OkSorted(ts) && k < |ts| && Ok(ts[k]) && forall i | 0 <= i < k :: !Ok(ts[i])
    requires Boots(b, log, c)
    ensures ts[k].name in c && Boots(b, log + [ts[k].name], Spend(c, ts[k].name))
    ensures Offers(cfg, ts[k := Tried(ts[k])], Spend(c, ts[k].name)) && OkSorted(ts[k := Tried(ts[k])])
  {
    hide Offers, OkSorted, Best;
    var n := ts[k].name;
    FirstIsBest(cfg, ts, c, k);
    TryOffers(cfg, ts, c, k);
    var d := Spend(c, n);
    assert Boots(d, [], d);
    assert [n][1..] == [];
    assert Boots(c, [n], d);
    BootsJoin(b, log, c, [n], d);
  }

  class Chooser {
    const cfg: Config
    var store: Store
    var targets: seq<Target>
    var lastChosen: nat              // the id of a target, or 0
    var lastBootSuccessful: bool

    constructor (cfg: Config, store: Store)
      ensures this.cfg == cfg && this.store == store && targets == [] && lastChosen == 0 && !lastBootSuccessful
    {
      this.cfg, this.store, targets, lastChosen, lastBootSuccessful := cfg, store, [], 0, false;
    }

    method ResetAttempts()
      modifies `targets
      ensures targets == EachAttemptsReset(cfg, old(targets))
    {
      var i := 0;
      while i < |targets|
        invariant 0 <= i <= |targets| == |old(targets)|
        invariant forall k {:trigger targets[k]} | 0 <= k < |targets| :: targets[k] == if k < i then AttemptsReset(cfg, old(targets)[k]) else old(targets)[k]
      {
        if targets[i].priority != 0 {
          targets := targets[i := Restored(cfg, targets[i])];
        }
        i := i + 1;
      }
    }

    method ResetPriorities()
      modifies `targets
      ensures targets == EachPriorityReset(cfg, old(targets))
    {
      var i := 0;
      while i < |targets|
        invariant 0 <= i <= |targets| == |old(targets)|
        invariant forall k {:trigger targets[k]} | 0 <= k < |targets| :: targets[k] == if k < i then PriorityReset(cfg, old(targets)[k]) else old(targets)[k]
      {
        targets := targets[i := PriorityReset(cfg, targets[i])];
        i := i + 1;
      }
    }

    method DisableSpent()
      modifies `targets
      ensures targets == EachDisabled(old(targets))
    {
      var i := 0;
      while i < |targets|
        invariant 0 <= i <= |targets| == |old(targets)|
        invariant forall k {:trigger targets[k]} | 0 <= k < |targets| :: targets[k] == if k < i then Disabled(old(targets)[k]) else old(targets)[k]
      {
        if targets[i].attempts == 0 {
          targets := targets[i := targets[i].(priority := 0, attempts := 0)];
        }
        i := i + 1;
      }
    }

    method AllZero(priorities: bool) returns (zero: bool)
      ensures zero <==> if priorities then AllDisabled(targets) else AllSpent(targets)
    {
      var sum := 0;
      var i := 0;
      while i < |targets|
        invariant 0 <= i <= |targets| && 0 <= sum
        invariant sum == 0 <==> forall k {:trigger targets[k]} | 0 <= k < i :: (if priorities then targets[k].priority else targets[k].attempts) == 0
      {
        sum := sum + if priorities then targets[i].priority else targets[i].attempts;
        i := i + 1;
      }
      zero := sum == 0;
    }

    /** bootchooser_target_by_id */
    method TargetById(id: nat) returns (k: int)
      ensures -1 <= k < |targets| && (0 <= k ==> targets[k].id == id)
      ensures k == -1 ==> forall i | 0 <= i < |targets| :: targets[i].id != id
    {
      k := 0;
      while k < |targets|
        invariant 0 <= k <= |targets| && forall i | 0 <= i < k :: targets[i].id != id
      {
        if targets[k].id == id {
          return;
        }
        k := k + 1;
      }
      return -1;
    }

    method ApplyResets(powerOn: bool)
      modifies `targets
      ensures targets == WithResets(cfg, old(targets), powerOn)
    {
      hide EachPriorityReset, EachAttemptsReset, AllDisabled, AllSpent;
      if cfg.resetPriorities {
        var zero := AllZero(true);
        if zero {
          ResetPriorities();
        }
      }
      if cfg.resetOnPower && powerOn {
        ResetAttempts();
      }
      if cfg.resetWhenSpent {
        var zero := AllZero(false);
        if zero {
          ResetAttempts();
        }
      }
    }

    /** The last chosen target is looked up, and gets its attempts back when its boot
        was successful. */
    method FindLast()
      requires forall i, j | 0 <= i < j < |targets| :: targets[i].id != targets[j].id
      modifies `targets, `lastChosen
      ensures lastChosen == if store.lastChosen > 0 && HasId(old(targets), store.lastChosen) then store.lastChosen else 0
      ensures targets == if lastChosen > 0 && lastBootSuccessful then RestoredId(cfg, old(targets), lastChosen) else old(targets)
      ensures |targets| == |old(targets)| && forall i {:trigger targets[i]} | 0 <= i < |targets| ::
                targets[i] == if lastBootSuccessful && 0 < lastChosen == old(targets)[i].id
                              then old(targets)[i].(attempts := cfg.spec(old(targets)[i].name).attempts) else old(targets)[i]
    {
      lastChosen := 0;
      if store.lastChosen > 0 {
        var k := TargetById(store.lastChosen);
        if k != -1 {
          lastChosen := store.lastChosen;
          if lastBootSuccessful {
            RestoreOne(cfg, targets, k);
            targets := targets[k := Restored(cfg, targets[k])];
          }
        }
      }
    }

    /** bootchooser_get: read the targets into an ordered list and apply the policies.
        The store is not written. */
    method Get(powerOn: bool) returns (ret: Result, ghost ts: seq<Target>)
      modifies this
      ensures store == old(store) && lastBootSuccessful == old(lastBootSuccessful)
      ensures cfg.names == [] ==> ret == Einval && targets == old(targets)
      ensures cfg.names != [] ==>
        && ret == Success && Listed(cfg, store, |cfg.names|, ts)
        && lastChosen == (if 1 <= store.lastChosen <= |ts| then store.lastChosen else 0)
        && targets == Prepared(cfg, ts, powerOn, lastChosen, lastBootSuccessful)
      ensures forall i {:trigger ts[i]} | 0 <= i < |ts| :: AsStored(cfg, store, ts[i])
      ensures forall i, j | 0 <= i < j < |ts| :: ts[i].priority > ts[j].priority || (ts[i].priority == ts[j].priority && ts[i].id < ts[j].id)
      ensures cfg.names != [] ==> |targets| == |ts| == |cfg.names| && forall i {:trigger targets[i]} | 0 <= i < |targets| ::
                PolicyOf(cfg, ts, powerOn, lastChosen, lastBootSuccessful, ts[i], targets[i])
    {
      hide WithResets, RestoredId, EachDisabled, Listed, PolicyOf, AsStored;
      ts := [];
      if cfg.names == [] {
        return Einval, ts;
      }
      ret := Success;
      targets := LoadTargets(cfg, store);
      ts := targets;
      ApplyResets(powerOn);
      WithResetsIds(cfg, ts, powerOn);
      ListedIds(cfg, store, ts, targets);
      FindLast();
      if cfg.disableWhenSpent {
        DisableSpent();
      }
      ListedAsStored(cfg, store, ts);
      ListedInOrder(cfg, store, ts);
      PolicyApplied(cfg, ts, powerOn, lastChosen, lastBootSuccessful);
      assert |ts| == |cfg.names| by { ListedLength(cfg, store, ts); }
    }

    /** bootchooser_save */
    method Save()
      modifies `store
      ensures store == SavedAll(old(store), targets, lastChosen)
      ensures store.lastChosen == if lastChosen > 0 then lastChosen else old(store.lastChosen)
    {
      if lastChosen > 0 {
        store := store.(lastChosen := lastChosen);
      }
      ghost var s := store;
      var k := 0;
      while k < |targets|
        invariant 0 <= k <= |targets| && store == Saved(s, targets[..k]) && store.lastChosen == s.lastChosen
      {
        var t := targets[k];
        assert targets[..k + 1][..k] == targets[..k];
        store := store.(attempts := store.attempts[t.name := t.attempts]);
        store := store.(priority := store.priority[t.name := t.priority]);
        k := k + 1;
      }
      assert targets[..k] == targets;
    }

    /** bootchooser_get_target: the first target that can be booted gives up one attempt,
        and that is saved before anything is booted. */
    method GetTarget() returns (k: int)
      modifies this
      ensures -1 <= k < |targets| == |old(targets)| && lastBootSuccessful == old(lastBootSuccessful)
      ensures forall i | 0 <= i < (if k == -1 then |targets| else k) :: !Ok(old(targets)[i])
      ensures k == -1 ==> targets == old(targets) && store == old(store) && lastChosen == old(lastChosen)
      ensures k != -1 ==> Ok(old(targets)[k]) && targets == old(targets)[k := Tried(old(targets)[k])]
      ensures k != -1 ==> lastChosen == targets[k].id && store == SavedAll(old(store), targets, lastChosen)
      ensures k != -1 ==> store.lastChosen == if lastChosen > 0 then lastChosen else old(store.lastChosen)
      ensures k != -1 ==> 0 < old(targets)[k].attempts && targets[k] == old(targets)[k].(attempts := old(targets)[k].attempts - 1)
    {
      k := 0;
      while k < |targets|
        invariant 0 <= k <= |targets| && forall i | 0 <= i < k :: !Ok(targets[i])
      {
        if Ok(targets[k]) {
          targets := targets[k := Tried(targets[k])];
          lastChosen := targets[k].id;
          Save();
          return;
        }
        k := k + 1;
      }
      return -1;
    }

    /** bootchooser_boot_one */
    method BootOne(outcome: Outcome) returns (ret: Result, tryAgain: bool, k: int)
      modifies this
      ensures -1 <= k < |targets| == |old(targets)|
      ensures forall i | 0 <= i < (if k == -1 then |targets| else k) :: !Ok(old(targets)[i])
      ensures k == -1 ==> ret == Enoent && !tryAgain && targets == old(targets) && store == old(store)
      ensures k != -1 ==> Ok(old(targets)[k]) && targets == old(targets)[k := Tried(old(targets)[k])]
      ensures k != -1 ==> lastChosen == targets[k].id && store == SavedAll(old(store), targets, lastChosen)
      ensures k != -1 ==> tryAgain == (ret != Success) && ret == (if outcome == Nothing then Enodev else outcome.ret)
      ensures k != -1 && outcome != Nothing ==> !lastBootSuccessful
    {
      k := GetTarget();
      if k == -1 {
        return Enoent, false, k;
      }
      match outcome
      case Nothing =>
        return Enodev, true, k;
      case Entry(r) =>
        lastBootSuccessful := false;
        return r, r != Success, k;
    }

    /** bootchooser_boot: `b` is the budget the targets offer at first, `b'` what is left
        of it, and `log` says which targets were booted. */
    method Boot(outcomes: nat -> Outcome, ghost b: Budget) returns (ret: Result, ghost log: seq<Name>, ghost b': Budget)
      modifies this
      ensures Offers(cfg, old(targets), b) && OkSorted(old(targets)) ==>
        && Boots(b, log, b') && Offers(cfg, targets, b') && OkSorted(targets)
        && (if log == [] then store == old(store) else BudgetOf(cfg, store) == b')
        && (log == [] || (cfg.retry && ret != Success) ==> b' == map[])
      ensures |log| + Remaining(targets) == Remaining(old(targets))
      ensures ret == Success ==> log != [] && outcomes(|log| - 1) == Entry(Success)
      ensures log == [] ==> ret == Enoent
      ensures cfg.retry && ret != Success ==> ret == Enoent
      ensures !cfg.retry ==> |log| <= 1
      ensures !cfg.retry && log != [] ==> ret == if outcomes(0) == Nothing then Enodev else outcomes(0).ret
      ensures log == [] || (cfg.retry && ret != Success) ==> forall i | 0 <= i < |targets| :: !Ok(targets[i])
    {
      hide Offers, OkSorted, Boots, BudgetOf, Remaining, Spend, Saved;
      log, b' := [], b;
      BootsNothing(b);
      var n := 0;
      ghost var sound := Offers(cfg, targets, b) && OkSorted(targets);
      while true
        invariant |log| == n && n + Remaining(targets) == Remaining(old(targets)) && (!cfg.retry ==> log == [])
        invariant sound ==> Offers(cfg, targets, b') && OkSorted(targets) && Boots(b, log, b')
        invariant sound ==> if log == [] then store == old(store) else BudgetOf(cfg, store) == b'
        decreases Remaining(targets)
      {
        ghost var ts, before := targets, store;
        var tryAgain, k;
        ret, tryAgain, k := BootOne(outcomes(n));
        if k != -1 {
          TriedLess(ts, k);
          if sound {
            BootStep(cfg, ts, k, b, log, b');
            b' := Spend(b', ts[k].name);
            SaveBudget(cfg, if lastChosen > 0 then before.(lastChosen := lastChosen) else before, targets, b');
          }
          log, n := log + [ts[k].name], n + 1;
        } else if sound {
          NoneLeft(cfg, targets, b');
        }
        if !cfg.retry || !tryAgain {
          break;
        }
      }
    }

    /** bootchooser_entry_boot: the whole of a power cycle.  With no policy that gives
        anything back, it only ever spends what the persistent variables hold. */
    method EntryBoot(powerOn: bool, outcomes: nat -> Outcome)
      returns (ret: Result, ghost log: seq<Name>, ghost ts: seq<Target>, ghost first: seq<Target>)
      modifies this
      ensures Strict(cfg) && old(NamedOnce(cfg, store)) && !old(lastBootSuccessful) ==>
        && Boots(BudgetOf(cfg, old(store)), log, BudgetOf(cfg, store)) && NamedOnce(cfg, store)
        && (cfg.retry && cfg.names != [] && ret != Success ==> ret == Enoent && BudgetOf(cfg, store) == map[])
        && (log == [] ==> BudgetOf(cfg, store) == map[])
      ensures cfg.names == [] ==> ret == Einval && store == old(store) && log == []
      ensures ret == Success ==> log != [] && outcomes(|log| - 1) == Entry(Success)
      ensures cfg.names != [] ==>
        && |first| == |ts| == |cfg.names|
        && (forall i {:trigger ts[i]} | 0 <= i < |ts| :: AsStored(cfg, old(store), ts[i]))
        && (forall i {:trigger first[i]} | 0 <= i < |first| ::
              PolicyOf(cfg, ts, powerOn, if 1 <= old(store.lastChosen) <= |ts| then old(store.lastChosen) else 0, old(lastBootSuccessful), ts[i], first[i]))
        && |log| + Remaining(targets) == Remaining(first)
        && (log == [] || (cfg.retry && ret != Success) ==> ret == Enoent && forall i | 0 <= i < |targets| :: !Ok(targets[i]))
        && (!cfg.retry ==> |log| <= 1 && (log != [] ==> ret == if outcomes(0) == Nothing then Enodev else outcomes(0).ret))
      ensures cfg.names != [] ==> exists s, last {:trigger SavedAll(s, targets, last)} :: store == SavedAll(s, targets, last)
    {
      hide Listed, Prepared, BudgetOf, Offers, OkSorted, Boots, PolicyOf, AsStored, Remaining;
      log, first := [], [];
      ret, ts := Get(powerOn);
      if ret != Success {
        NoNames(cfg, store);
        return;
      }
      first := targets;
      ghost var b := BudgetOf(cfg, store);
      ghost var sound := Strict(cfg) && NamedOnce(cfg, store) && !lastBootSuccessful;
      if sound {
        StrictOffers(cfg, store, ts, powerOn, lastChosen);
      }
      ghost var b';
      ret, log, b' := Boot(outcomes, b);
      if sound {
        SaveBudget(cfg, if lastChosen > 0 then store.(lastChosen := lastChosen) else store, targets, b');
        StillNamedOnce(cfg, old(store), log, SavedAll(store, targets, lastChosen));
      }
      Save();
    }
  }

  lemma NoNames(cfg: Config, store: Store)
    requires cfg.names == []
    ensures BudgetOf(cfg, store) == map[] && Boots(BudgetOf(cfg, store), [], BudgetOf(cfg, store))
  {
  }

  lemma StrictOffers(cfg: Config, store: Store, ts: seq<Target>, powerOn: bool, last: nat)
    requires Strict(cfg) && NamedOnce(cfg, store) && Listed(cfg, store, |cfg.names|, ts)
    ensures var r := Prepared(cfg, ts, powerOn, last, false); Offers(cfg, r, BudgetOf(cfg, store)) && OkSorted(r)
  {
    hide Listed, BudgetOf, Offers, OkSorted;
    LoadOffers(cfg, store, ts);
    if cfg.disableWhenSpent {
      DisableOffers(cfg, ts, EachDisabled(ts), BudgetOf(cfg, store));
    }
  }

  // ------------------------------------------------------------------
  // Across reboots

  function Joined(logs: seq<seq<Name>>): seq<Name> {
    if logs == [] then [] else Joined(logs[..|logs| - 1]) + logs[|logs| - 1]
  }

  /** Each power cycle leads from one state of the persistent variables to the next. */
  ghost predicate Reboots(cfg: Config, stores: seq<Store>, logs: seq<seq<Name>>) {
    && |stores| == |logs| + 1
    && forall i {:trigger logs[i]} | 0 <= i < |logs| :: Boots(BudgetOf(cfg, stores[i]), logs[i], BudgetOf(cfg, stores[i + 1]))
  }

  lemma {:induction false} RebootsJoin(cfg: Config, stores: seq<Store>, logs: seq<seq<Name>>)
    requires Reboots(cfg, stores, logs)
    ensures Boots(BudgetOf(cfg, stores[0]), Joined(logs), BudgetOf(cfg, stores[|logs|]))
    decreases logs
  {
    hide Boots, BudgetOf;
    if logs == [] {
      BootsNothing(BudgetOf(cfg, stores[0]));
    } else {
      var n := |logs| - 1;
      RebootsJoin(cfg, stores[..n + 1], logs[..n]);
      assert logs[..n + 1] == logs;
      BootsJoin(BudgetOf(cfg, stores[0]), Joined(logs[..n]), BudgetOf(cfg, stores[n]), logs[n], BudgetOf(cfg, stores[n + 1]));
    }
  }

  lemma BootsNothing(b: Budget)
    ensures Boots(b, [], b)
  {
  }

  /** However often the machine reboots: a target is booted at most as often as it had
      attempts at first, exactly that often once nothing can be booted any more, and the
      priorities of the targets booted never rise. */
  lemma AcrossReboots(cfg: Config, stores: seq<Store>, logs: seq<seq<Name>>)
    requires Reboots(cfg, stores, logs)
    ensures var b, b', log := BudgetOf(cfg, stores[0]), BudgetOf(cfg, stores[|logs|]), Joined(logs);
            && (forall n {:trigger Count(log, n)} :: Count(log, n) + Left(b', n) == Left(b, n))
            && (forall i {:trigger log[i]} | 0 <= i < |log| :: log[i] in b)
            && (forall i, j | 0 <= i < j < |log| :: b[log[i]].priority >= b[log[j]].priority)
  {
    hide Boots, BudgetOf;
    var b, b', log := BudgetOf(cfg, stores[0]), BudgetOf(cfg, stores[|logs|]), Joined(logs);
    RebootsJoin(cfg, stores, logs);
    BudgetPositive(cfg, stores[0]);
    forall n ensures Count(log, n) + Left(b', n) == Left(b, n) {
      AttemptsSpent(b, log, b', n);
    }
    forall i | 0 <= i < |log| ensures log[i] in b {
      StillThere(b, log, b', i);
    }
    forall i, j | 0 <= i < j < |log| ensures b[log[i]].priority >= b[log[j]].priority {
      PrioritiesFall(b, log, b', i, j);
    }
  }

  // ------------------------------------------------------------------
  // A name listed twice

  ghost predicate ListedOnce(names: seq<Name>, n: Name) {
    forall i, j | 0 <= i < j < |names| :: !(names[i] == n && names[j] == n)
  }

  ghost predicate LastOfName(ts: seq<Target>, k: nat)
    requires k < |ts|
  {
    forall i | k < i < |ts| :: ts[i].name != ts[k].name
  }

  /** For any targets in memory: a boot lowers what is saved for its name, by one, exactly
      when no target of that name follows the one that is booted. */
  lemma AttemptKept(store: Store, ts: seq<Target>, k: nat)
    requires k < |ts| && Ok(ts[k])
    ensures var n := ts[k].name;
            var before, after := Saved(store, ts), SavedAll(store, ts[k := Tried(ts[k])], ts[k].id);
            && n in before.attempts && n in after.attempts
            && before.attempts[n] == after.attempts[n] + if LastOfName(ts, k) then 1 else 0
  {
    hide Saved;
    var n, r := ts[k].name, ts[k := Tried(ts[k])];
    var m := LastNamed(ts, n, k);
    assert forall i | 0 <= i < |ts| :: r[i].name == ts[i].name;
    SavedLast(store, ts, m);
    SavedLast(if ts[k].id > 0 then store.(lastChosen := ts[k].id) else store, r, m);
  }

  /** So the first boot after the targets are read costs an attempt exactly when the
      target's name is listed once.  Listed twice, the first of the two gives up an attempt,
      but the second, written after it, saves the old number. */
  lemma AttemptSaved(cfg: Config, store: Store, ts: seq<Target>, k: nat)
    requires Listed(cfg, store, |cfg.names|, ts) && k < |ts| && Ok(ts[k]) && forall l | 0 <= l < k :: !Ok(ts[l])
    ensures var s := SavedAll(store, ts[k := Tried(ts[k])], ts[k].id);
            && ts[k].name in s.attempts
            && (s.attempts[ts[k].name] == ts[k].attempts - 1 <==> ListedOnce(cfg.names, ts[k].name))
            && (s.attempts[ts[k].name] == ts[k].attempts <==> !ListedOnce(cfg.names, ts[k].name))
  {
    hide Before, Saved, TargetNew;
    var n := ts[k].name;
    var r := ts[k := Tried(ts[k])];
    var m := LastNamed(r, n, k);
    SameAs(cfg, store, ts, k);
    SameAs(cfg, store, ts, m);
    SavedLast(if ts[k].id > 0 then store.(lastChosen := ts[k].id) else store, r, m);
    if m == k {
      forall l | k < l < |ts| ensures ts[l].name != n {
        assert r[l] == ts[l];
      }
      OnlyOne(cfg, store, ts, k);
    } else {
      var a, b := ts[k].id - 1, ts[m].id - 1;
      IdsApart(cfg, store, ts, k, m);
      NewName(cfg, store, cfg.names[a], a + 1);
      NewName(cfg, store, cfg.names[b], b + 1);
      assert cfg.names[a] == n && cfg.names[b] == n;
    }
  }

  lemma IdsApart(cfg: Config, store: Store, ts: seq<Target>, i: nat, j: nat)
    requires Listed(cfg, store, |cfg.names|, ts) && i < j < |ts|
    ensures ts[i].id != ts[j].id
  {
    assert Before(ts[i], ts[j]);
  }

  /** The first target of the list that can be booted is the first of its name, as those of
      one name are alike. */
  lemma OnlyOne(cfg: Config, store: Store, ts: seq<Target>, k: nat)
    requires Listed(cfg, store, |cfg.names|, ts) && k < |ts| && Ok(ts[k]) && forall l | 0 <= l < k :: !Ok(ts[l])
    requires forall l | k < l < |ts| :: ts[l].name != ts[k].name
    ensures ListedOnce(cfg.names, ts[k].name)
  {
    hide Before, TargetNew;
    var n := ts[k].name;
    SameAs(cfg, store, ts, k);
    forall i, j | 0 <= i < j < |cfg.names| ensures !(cfg.names[i] == n && cfg.names[j] == n) {
      assert HasId(ts, i + 1) && HasId(ts, j + 1);
      var p :| 0 <= p < |ts| && ts[p].id == i + 1;
      var q :| 0 <= q < |ts| && ts[q].id == j + 1;
      NewName(cfg, store, cfg.names[i], i + 1);
      NewName(cfg, store, cfg.names[j], j + 1);
      SameAs(cfg, store, ts, p);
      SameAs(cfg, store, ts, q);
    }
  }

  lemma NewName(cfg: Config, store: Store, n: Name, id: nat)
    ensures TargetNew(cfg, store, n, id).name == n
  {
  }

  lemma SameAs(cfg: Config, store: Store, ts: seq<Target>, i: nat)
    requires Listed(cfg, store, |cfg.names|, ts) && i < |ts|
    ensures ts[i].name in cfg.names
    ensures var t := TargetNew(cfg, store, ts[i].name, 0); t.priority == ts[i].priority && t.attempts == ts[i].attempts
  {
    assert cfg.names[ts[i].id - 1] in cfg.names;
  }
}
