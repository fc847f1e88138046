/** The per-tenant gate: locks are created on first use, under the gate's own mutex. */
module SweepGate {

  /** A sweep body: about to enter, holding a reference to a lock, or inside it. */
  datatype Phase = Enter(tenant: string) | Blocked(tenant: string, lock: nat) | Inside(tenant: string, lock: nat) | Out

  /** `locks` is the gate's map, `held` each taken lock with its holder, `next` a fresh lock. */
  datatype Gate = Gate(locks: map<string, nat>, held: map<nat, nat>, next: nat, sweeps: map<nat, Phase>)

  datatype Step = Begin(i: nat, tenant: string) | Lookup(i: nat) | Lock(i: nat) | Unlock(i: nat)

  ghost predicate Enabled(g: Gate, a: Step) {
    match a
    case Begin(i, _) => i !in g.sweeps
    case Lookup(i) => i in g.sweeps && g.sweeps[i].Enter?
    case Lock(i) => i in g.sweeps && g.sweeps[i].Blocked? && g.sweeps[i].lock !in g.held
    case Unlock(i) => i in g.sweeps && g.sweeps[i].Inside?
  }

  function After(g: Gate, a: Step): Gate
    requires Enabled(g, a)
  {
    match a
    case Begin(i, t) => g.(sweeps := g.sweeps[i := Enter(t)])
    case Lookup(i) =>
      var t := g.sweeps[i].tenant;
      if t in g.locks then g.(sweeps := g.sweeps[i := Blocked(t, g.locks[t])])
      else g.(locks := g.locks[t := g.next], next := g.next + 1, sweeps := g.sweeps[i := Blocked(t, g.next)])
    case Lock(i) =>
      g.(held := g.held[g.sweeps[i].lock := i], sweeps := g.sweeps[i := Inside(g.sweeps[i].tenant, g.sweeps[i].lock)])
    case Unlock(i) => g.(held := g.held - {g.sweeps[i].lock}, sweeps := g.sweeps[i := Out])
  }

  ghost predicate InSweep(g: Gate, i: nat) {
    i in g.sweeps && g.sweeps[i].Inside?
  }

  /** Locks differ between tenants, and every sweep past the lookup has its tenant's. */
  ghost predicate OneLock(g: Gate) {
    && (forall t :: t in g.locks ==> g.locks[t] < g.next)
    && (forall t, u :: t in g.locks && u in g.locks && t != u ==> g.locks[t] != g.locks[u])
    && (forall i :: i in g.sweeps ==> HasLock(g.locks, g.sweeps[i]))
  }

  ghost predicate HasLock(locks: map<string, nat>, p: Phase) {
    p.Blocked? || p.Inside? ==> p.tenant in locks && locks[p.tenant] == p.lock
  }

  /** The sweeps inside are the holders of the taken locks. */
  ghost predicate OneHolder(g: Gate) {
    && (forall i :: InSweep(g, i) ==> g.sweeps[i].lock in g.held && g.held[g.sweeps[i].lock] == i)
    && (forall l :: l in g.held ==> InSweep(g, g.held[l]) && g.sweeps[g.held[l]].lock == l)
  }

  ghost predicate Inv(g: Gate) {
    OneLock(g) && OneHolder(g)
  }

  lemma OneLockStep(g: Gate, a: Step)
    requires OneLock(g) && Enabled(g, a)
    ensures OneLock(After(g, a))
  {
    var g' := After(g, a);
    forall i | i in g'.sweeps ensures HasLock(g'.locks, g'.sweeps[i]) {
      assert i in g.sweeps ==> HasLock(g.locks, g.sweeps[i]);
    }
  }

  lemma OneHolderStep(g: Gate, a: Step)
    requires OneHolder(g) && Enabled(g, a)
    ensures OneHolder(After(g, a))
  {
    var g' := After(g, a);
    forall i | InSweep(g', i) ensures g'.sweeps[i].lock in g'.held && g'.held[g'.sweeps[i].lock] == i {
      if i != a.i { assert InSweep(g, i); }
    }
    forall l | l in g'.held ensures InSweep(g', g'.held[l]) && g'.sweeps[g'.held[l]].lock == l {
    }
  }

  lemma StepKeeps(g: Gate, a: Step)
    requires Inv(g) && Enabled(g, a)
    ensures Inv(After(g, a))
  {
    OneLockStep(g, a);
    OneHolderStep(g, a);
  }

  ghost predicate Run(gs: seq<Gate>, steps: seq<Step>) {
    && |gs| == |steps| + 1 && gs[0] == Gate(map[], map[], 0, map[])
    && forall k :: 0 <= k < |steps| ==> Enabled(gs[k], steps[k]) && gs[k + 1] == After(gs[k], steps[k])
  }

  lemma {:induction false} EveryRunInv(gs: seq<Gate>, steps: seq<Step>, k: nat)
    requires Run(gs, steps) && k < |gs|
    ensures Inv(gs[k])
  {
    if k > 0 {
      EveryRunInv(gs, steps, k - 1);
      StepKeeps(gs[k - 1], steps[k - 1]);
    }
  }

  /** Two sweep bodies of one tenant never overlap, and a blocked sweep waits only for a
      sweep of its own tenant. */
  lemma SweepsExclude(gs: seq<Gate>, steps: seq<Step>, k: nat, i: nat, j: nat)
    requires Run(gs, steps) && k < |gs|
    ensures InSweep(gs[k], i) && InSweep(gs[k], j) && gs[k].sweeps[i].tenant == gs[k].sweeps[j].tenant ==> i == j
    ensures i in gs[k].sweeps && gs[k].sweeps[i].Blocked? && !Enabled(gs[k], Lock(i)) ==>
              exists x :: InSweep(gs[k], x) && gs[k].sweeps[x].tenant == gs[k].sweeps[i].tenant
  {
    EveryRunInv(gs, steps, k);
    var g := gs[k];
    assert forall x :: InSweep(g, x) ==> HasLock(g.locks, g.sweeps[x]);
    if i in g.sweeps && g.sweeps[i].Blocked? && g.sweeps[i].lock in g.held {
      var x := g.held[g.sweeps[i].lock];
      assert HasLock(g.locks, g.sweeps[i]) && HasLock(g.locks, g.sweeps[x]);
      assert g.locks[g.sweeps[x].tenant] == g.locks[g.sweeps[i].tenant];
    }
  }

  /** A sweep whose tenant nobody is sweeping goes straight in and out again, and leaves the gate
      as it was but for its tenant's lock, which is there from then on. */
  lemma WholeSweep(g: Gate, i: nat, t: string)
    requires Inv(g) && i !in g.sweeps && forall j :: InSweep(g, j) ==> g.sweeps[j].tenant != t
    ensures
      var g1 := After(g, Begin(i, t));
      && Enabled(g1, Lookup(i)) && var g2 := After(g1, Lookup(i));
      && Enabled(g2, Lock(i)) && var g3 := After(g2, Lock(i));
      && InSweep(g3, i) && g3.sweeps[i].tenant == t && Enabled(g3, Unlock(i)) && var g4 := After(g3, Unlock(i));
      && g4.held == g.held && g4.sweeps == g.sweeps[i := Out] && t in g4.locks
      && forall u :: u in g.locks ==> u in g4.locks && g4.locks[u] == g.locks[u]
  {
    FreeLock(g, t);
    var l := After(After(g, Begin(i, t)), Lookup(i)).sweeps[i].lock;
    assert g.held[l := i] - {l} == g.held;
  }

  /** The lock of a tenant nobody is sweeping is free, and so is a fresh one. */
  lemma FreeLock(g: Gate, t: string)
    requires Inv(g) && forall j :: InSweep(g, j) ==> g.sweeps[j].tenant != t
    ensures g.next !in g.held && (t in g.locks ==> g.locks[t] !in g.held)
  {
    forall l | l in g.held ensures l != g.next && (t in g.locks ==> l != g.locks[t]) {
      var x := g.held[l];
      assert InSweep(g, x) && HasLock(g.locks, g.sweeps[x]);
    }
  }
}
