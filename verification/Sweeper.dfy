/** The debounced distillation sweeper: marks per tenant, a timer capped by a deadline,
    and timers that may already have fired when a new one is armed. Times are nanoseconds. */
module Sweeper {
  import opened Wrappers

  const SECOND := 1_000_000_000

  datatype Ref = Ref(entity: string, id: string)

  /** A write event; `at` is when it was marked. */
  datatype Mark = Mark(tenant: string, ref: Ref, at: int)

  /** The maps kept under the lock. A dirty ref holds the number of its latest mark, a
      tenant the number of the timer armed last. */
  datatype Core = Core(dirty: map<string, map<Ref, nat>>, timers: map<string, nat>, deadline: map<string, int>)

  /** The wait before the next sweep: the debounce window, cut at the deadline, at least zero. */
  function NextFireDelay(now: int, deadline: int, debounce: int): (d: int)
    ensures d >= 0 && (0 <= debounce ==> d <= debounce)
    ensures now <= deadline && 0 <= debounce ==> now + d <= deadline && (d == debounce || now + d == deadline)
  {
    var d := if deadline - now < debounce then deadline - now else debounce;
    if d < 0 then 0 else d
  }

  function DirtyOf(c: Core, tenant: string): map<Ref, nat> {
    if tenant in c.dirty then c.dirty[tenant] else map[]
  }

  function Marked(c: Core, maxWait: int, tenant: string, r: Ref, mark: nat, now: int, timer: nat): Core {
    Core(c.dirty[tenant := DirtyOf(c, tenant)[r := mark]],
         c.timers[tenant := timer],
         if tenant in c.deadline then c.deadline else c.deadline[tenant := now + maxWait])
  }

  function Swept(c: Core, tenant: string): Core {
    Core(c.dirty - {tenant}, c.timers - {tenant}, c.deadline - {tenant})
  }

  class DistillSweeper {
    const debounce: int
    const maxWait: int
    var dirty: map<string, map<Ref, nat>>
    var timers: map<string, nat>
    var deadline: map<string, int>

    ghost function Maps(): Core
      reads this
    {
      Core(dirty, timers, deadline)
    }

    constructor (debounce: int, maxWait: int)
      ensures 0 < this.debounce <= this.maxWait
      ensures this.debounce == if debounce <= 0 then SECOND else debounce
      ensures this.maxWait == if maxWait <= 0 then 10 * this.debounce
                              else if maxWait < this.debounce then this.debounce else maxWait
      ensures Maps() == Core(map[], map[], map[])
    {
      var d := if debounce <= 0 then SECOND else debounce;
      var w := if maxWait <= 0 then 10 * d else maxWait;
      this.debounce := d;
      this.maxWait := if w < d then d else w;
      dirty, timers, deadline := map[], map[], map[];
    }

    /** Records a mark, stops the tenant's last timer and arms `timer` for `delay`. */
    method MarkAndSchedule(tenant: string, r: Ref, mark: nat, now: int, timer: nat)
      returns (stop: Option<nat>, delay: int)
      modifies this
      ensures Maps() == Marked(old(Maps()), maxWait, tenant, r, mark, now, timer)
      ensures stop == if tenant in old(timers) then Some(old(timers[tenant])) else None
      ensures delay == NextFireDelay(now, deadline[tenant], debounce)
    {
      if tenant !in dirty { dirty := dirty[tenant := map[]]; }
      var refs: map<Ref, nat> := dirty[tenant];
      refs := refs[r := mark];
      dirty := dirty[tenant := refs];
      if tenant !in deadline { deadline := deadline[tenant := now + maxWait]; }
      stop := if tenant in timers then Some(timers[tenant]) else None;
      delay := NextFireDelay(now, deadline[tenant], debounce);
      timers := timers[tenant := timer];
    }

    /** The locked part of a sweep: snapshot and clear. */
    method TakeDirty(tenant: string) returns (envs: map<Ref, nat>)
      modifies this
      ensures envs == DirtyOf(old(Maps()), tenant)
      ensures Maps() == Swept(old(Maps()), tenant)
    {
      envs := if tenant in dirty then dirty[tenant] else map[];
      dirty := dirty - {tenant};
      timers := timers - {tenant};
      deadline := deadline - {tenant};
    }
  }

  // ---- timed runs ----

  /** A timer that has not been stopped: armed by a mark until `fired`, then waiting for the
      lock. */
  datatype Timer = Timer(tenant: string, mark: nat, due: int, fired: bool)

  /** What one sweep took, when, and the first mark since the sweep before. */
  datatype Batch = Batch(tenant: string, envs: map<Ref, nat>, at: int, first: nat)

  /** `first` is each dirty tenant's first mark since its last sweep; it, `marks` and
      `batches` are history. */
  datatype Clock = Clock(
    now: int, core: Core, live: map<nat, Timer>, first: map<string, nat>, marks: seq<Mark>, batches: seq<Batch>)

  datatype Label =
    | MarkAt(tenant: string, r: Ref, timer: nat)
    | Fire(timer: nat)
    | Sweep(timer: nat)
    | Tick(to: int)

  /** Stop takes an armed timer away; a fired one goes on to its sweep. */
  function Stop(live: map<nat, Timer>, timer: nat): map<nat, Timer> {
    if timer in live && !live[timer].fired then live - {timer} else live
  }

  ghost predicate Enabled(s: Clock, a: Label) {
    match a
    case MarkAt(_, _, timer) => timer !in s.live
    case Fire(timer) => timer in s.live && !s.live[timer].fired && s.live[timer].due <= s.now
    case Sweep(timer) => timer in s.live && s.live[timer].fired
    case Tick(to) => s.now <= to
  }

  function After(debounce: int, maxWait: int, s: Clock, a: Label): Clock
    requires Enabled(s, a)
  {
    match a
    case MarkAt(tenant, r, timer) =>
      var core := Marked(s.core, maxWait, tenant, r, |s.marks|, s.now, timer);
      var live := if tenant in s.core.timers then Stop(s.live, s.core.timers[tenant]) else s.live;
      var due := s.now + NextFireDelay(s.now, core.deadline[tenant], debounce);
      Clock(s.now, core, live[timer := Timer(tenant, |s.marks|, due, false)],
            if tenant in s.first then s.first else s.first[tenant := |s.marks|],
            s.marks + [Mark(tenant, r, s.now)], s.batches)
    case Fire(timer) => s.(live := s.live[timer := s.live[timer].(fired := true)])
    case Sweep(timer) =>
      var tenant := s.live[timer].tenant;
      var first := if tenant in s.first then s.first[tenant] else |s.marks|;
      s.(core := Swept(s.core, tenant), live := s.live - {timer}, first := s.first - {tenant},
         batches := s.batches + [Batch(tenant, DirtyOf(s.core, tenant), s.now, first)])
    case Tick(to) => s.(now := to)
  }

  /** Timers fire by their due time: time passes only up to the next due timer, and a
      fired sweep takes the lock before time passes. */
  ghost predicate Prompt(s: Clock, a: Label) {
    a.Tick? ==> forall timer :: timer in s.live ==> !s.live[timer].fired && a.to <= s.live[timer].due
  }

  // ---- a dirty tenant always has a live timer ----

  /** Whatever orphan timers do: tenants with marks are those with a timer and a deadline,
      and that timer is live - armed, or fired and about to sweep. */
  ghost predicate Scheduled(s: Clock) {
    && s.core.dirty.Keys == s.core.timers.Keys == s.core.deadline.Keys
    && forall t :: t in s.core.timers ==> s.core.timers[t] in s.live && s.live[s.core.timers[t]].tenant == t
  }

  ghost predicate MarkOf(marks: seq<Mark>, i: nat, tenant: string, r: Ref) {
    i < |marks| && marks[i].tenant == tenant && marks[i].ref == r
  }

  /** What is dirty, and what a sweep took, are marks of that tenant and ref. */
  ghost predicate Genuine(s: Clock) {
    && (forall t, r :: t in s.core.dirty && r in s.core.dirty[t] ==> MarkOf(s.marks, s.core.dirty[t][r], t, r))
    && (forall b, r :: 0 <= b < |s.batches| && r in s.batches[b].envs ==>
                         MarkOf(s.marks, s.batches[b].envs[r], s.batches[b].tenant, r))
  }

  lemma GenuineStep(debounce: int, maxWait: int, s: Clock, a: Label)
    requires Genuine(s) && Enabled(s, a)
    ensures Genuine(After(debounce, maxWait, s, a))
  {
  }

  lemma ScheduledStep(debounce: int, maxWait: int, s: Clock, a: Label)
    requires Scheduled(s) && Enabled(s, a)
    ensures Scheduled(After(debounce, maxWait, s, a))
  {
  }

  // ---- every mark is swept in time ----

  /** Mark i is one of the marks its tenant's next sweep takes. */
  ghost predicate WaitsFor(s: Clock, i: nat)
    requires i < |s.marks|
  {
    var m := s.marks[i];
    && m.tenant in s.first && s.first[m.tenant] <= i
    && m.tenant in s.core.dirty && m.ref in s.core.dirty[m.tenant] && s.core.dirty[m.tenant][m.ref] >= i
  }

  /** Batch b swept mark i or a later mark of its ref, within maxWait of the first mark since
      the tenant's sweep before. */
  ghost predicate Covers(b: Batch, marks: seq<Mark>, maxWait: int, i: nat)
    requires i < |marks|
  {
    && b.tenant == marks[i].tenant && marks[i].ref in b.envs && b.envs[marks[i].ref] >= i
    && b.first <= i && marks[b.first].tenant == b.tenant && b.at <= marks[b.first].at + maxWait
  }

  ghost predicate IsSwept(s: Clock, maxWait: int, i: nat)
    requires i < |s.marks|
  {
    exists b :: 0 <= b < |s.batches| && Covers(s.batches[b], s.marks, maxWait, i)
  }

  /** Each mark still waits for its tenant's next sweep or has been swept in time. */
  ghost predicate Accounted(s: Clock, maxWait: int) {
    forall i: nat :: i < |s.marks| ==> WaitsFor(s, i) || IsSwept(s, maxWait, i)
  }

  ghost predicate FirstOf(s: Clock, maxWait: int, t: string)
    requires t in s.first && t in s.core.deadline
  {
    var i := s.first[t];
    i < |s.marks| && s.marks[i].tenant == t && s.core.deadline[t] == s.marks[i].at + maxWait
  }

  /** Deadlines are first mark + maxWait. */
  ghost predicate Dated(s: Clock, maxWait: int) {
    && s.first.Keys == s.core.deadline.Keys
    && forall t :: t in s.core.deadline && t in s.first ==> FirstOf(s, maxWait, t)
  }

  /** No deadline has passed, and the timers in charge are due by their deadlines. */
  ghost predicate OnTime(s: Clock, maxWait: int) {
    && Dated(s, maxWait)
    && (forall t :: t in s.core.deadline ==> s.now <= s.core.deadline[t])
    && forall t :: t in s.core.timers && t in s.core.deadline && s.core.timers[t] in s.live ==>
                     s.live[s.core.timers[t]].due <= s.core.deadline[t]
  }

  lemma DatedStep(debounce: int, maxWait: int, s: Clock, a: Label)
    requires Dated(s, maxWait) && Enabled(s, a)
    ensures Dated(After(debounce, maxWait, s, a), maxWait)
  {
    var s' := After(debounce, maxWait, s, a);
    forall t | t in s'.core.deadline && t in s'.first ensures FirstOf(s', maxWait, t) {
      if t in s.core.deadline { assert FirstOf(s, maxWait, t); }
    }
  }

  lemma OnTimeStep(debounce: int, maxWait: int, s: Clock, a: Label)
    requires 0 <= debounce <= maxWait
    requires Scheduled(s) && OnTime(s, maxWait) && Enabled(s, a) && Prompt(s, a)
    ensures OnTime(After(debounce, maxWait, s, a), maxWait)
  {
    DatedStep(debounce, maxWait, s, a);
    var s' := After(debounce, maxWait, s, a);
    forall t | t in s'.core.deadline
      ensures s'.now <= s'.core.deadline[t]
      ensures t in s'.core.timers && s'.core.timers[t] in s'.live ==> s'.live[s'.core.timers[t]].due <= s'.core.deadline[t]
    {
      if t in s.core.deadline { assert t in s.core.timers && s.core.timers[t] in s.live; }
    }
  }

  /** Marks are in order of time. */
  ghost predicate InOrder(s: Clock) {
    forall i, j :: 0 <= i <= j < |s.marks| ==> s.marks[i].at <= s.marks[j].at <= s.now
  }

  lemma InOrderStep(debounce: int, maxWait: int, s: Clock, a: Label)
    requires InOrder(s) && Enabled(s, a)
    ensures InOrder(After(debounce, maxWait, s, a))
  {
  }

  lemma MarkAccounts(debounce: int, maxWait: int, s: Clock, a: Label)
    requires Scheduled(s) && OnTime(s, maxWait) && Accounted(s, maxWait) && Enabled(s, a) && a.MarkAt?
    ensures Accounted(After(debounce, maxWait, s, a), maxWait)
  {
    var s' := After(debounce, maxWait, s, a);
    forall i: nat | i < |s'.marks| ensures WaitsFor(s', i) || IsSwept(s', maxWait, i) {
      if i < |s.marks| && !WaitsFor(s, i) {
        var b :| 0 <= b < |s.batches| && Covers(s.batches[b], s.marks, maxWait, i);
        assert Covers(s'.batches[b], s'.marks, maxWait, i);
      }
    }
  }

  lemma SweepAccounts(debounce: int, maxWait: int, s: Clock, a: Label)
    requires Scheduled(s) && OnTime(s, maxWait) && Accounted(s, maxWait) && Enabled(s, a) && a.Sweep?
    ensures Accounted(After(debounce, maxWait, s, a), maxWait)
  {
    var s' := After(debounce, maxWait, s, a);
    forall i: nat | i < |s'.marks| ensures WaitsFor(s', i) || IsSwept(s', maxWait, i) {
      if WaitsFor(s, i) {
        if s.marks[i].tenant == s.live[a.timer].tenant {
          assert FirstOf(s, maxWait, s.marks[i].tenant);
          assert Covers(s'.batches[|s.batches|], s'.marks, maxWait, i);
        }
      } else {
        var b :| 0 <= b < |s.batches| && Covers(s.batches[b], s.marks, maxWait, i);
        assert Covers(s'.batches[b], s'.marks, maxWait, i);
      }
    }
  }

  ghost predicate Run(debounce: int, maxWait: int, ss: seq<Clock>, labels: seq<Label>) {
    && |ss| == |labels| + 1
    && ss[0].core == Core(map[], map[], map[]) && ss[0].live == map[] && ss[0].first == map[]
    && ss[0].marks == [] && ss[0].batches == []
    && forall i :: 0 <= i < |labels| ==>
                     Enabled(ss[i], labels[i]) && ss[i + 1] == After(debounce, maxWait, ss[i], labels[i])
  }

  /** At every lock boundary of every run, however late timers fire, a tenant with marks
      has a live timer, and sweeps take genuine marks. */
  lemma {:induction false} AlwaysScheduled(debounce: int, maxWait: int, ss: seq<Clock>, labels: seq<Label>, i: nat)
    requires Run(debounce, maxWait, ss, labels) && i < |ss|
    ensures Scheduled(ss[i]) && Genuine(ss[i])
  {
    if i > 0 {
      AlwaysScheduled(debounce, maxWait, ss, labels, i - 1);
      GenuineStep(debounce, maxWait, ss[i - 1], labels[i - 1]);
      ScheduledStep(debounce, maxWait, ss[i - 1], labels[i - 1]);
    }
  }

  lemma {:induction false} PromptInv(debounce: int, maxWait: int, ss: seq<Clock>, labels: seq<Label>, i: nat)
    requires 0 <= debounce <= maxWait && Run(debounce, maxWait, ss, labels) && i < |ss|
    requires forall j :: 0 <= j < |labels| ==> Prompt(ss[j], labels[j])
    ensures Scheduled(ss[i]) && OnTime(ss[i], maxWait) && Accounted(ss[i], maxWait) && InOrder(ss[i])
  {
    AlwaysScheduled(debounce, maxWait, ss, labels, i);
    if i > 0 {
      PromptInv(debounce, maxWait, ss, labels, i - 1);
      var s, a := ss[i - 1], labels[i - 1];
      OnTimeStep(debounce, maxWait, s, a);
      InOrderStep(debounce, maxWait, s, a);
      if a.MarkAt? {
        MarkAccounts(debounce, maxWait, s, a);
      } else if a.Sweep? {
        SweepAccounts(debounce, maxWait, s, a);
      } else {
        IdleAccounts(debounce, maxWait, s, a);
      }
    }
  }

  lemma IdleAccounts(debounce: int, maxWait: int, s: Clock, a: Label)
    requires Accounted(s, maxWait) && Enabled(s, a) && (a.Fire? || a.Tick?)
    ensures Accounted(After(debounce, maxWait, s, a), maxWait)
  {
    var s' := After(debounce, maxWait, s, a);
    forall i: nat | i < |s'.marks| ensures WaitsFor(s', i) || IsSwept(s', maxWait, i) {
      assert WaitsFor(s, i) || IsSwept(s, maxWait, i);
    }
  }

  lemma WaitingIsYoung(s: Clock, maxWait: int, i: nat)
    requires OnTime(s, maxWait) && InOrder(s) && i < |s.marks|
    ensures WaitsFor(s, i) ==> s.now <= s.marks[i].at + maxWait
  {
    if WaitsFor(s, i) { assert FirstOf(s, maxWait, s.marks[i].tenant); }
  }

  /** If timers fire by their due time, every mark older than maxWait has been swept - itself
      or through a later mark of its ref - no later than maxWait after the first mark since the
      tenant's sweep before. */
  lemma EveryMarkSwept(debounce: int, maxWait: int, ss: seq<Clock>, labels: seq<Label>, n: nat, i: nat)
    requires 0 <= debounce <= maxWait && Run(debounce, maxWait, ss, labels) && n < |ss|
    requires forall j :: 0 <= j < |labels| ==> Prompt(ss[j], labels[j])
    requires i < |ss[n].marks| && ss[n].marks[i].at + maxWait < ss[n].now
    ensures IsSwept(ss[n], maxWait, i)
  {
    PromptInv(debounce, maxWait, ss, labels, n);
    WaitingIsYoung(ss[n], maxWait, i);
  }

  // ---- no sweep comes too early ----

  ghost predicate IsLatest(marks: seq<Mark>, i: nat, t: string) {
    i < |marks| && marks[i].tenant == t && forall j :: i < j < |marks| ==> marks[j].tenant != t
  }

  /** The timer in charge of a tenant was armed by its latest mark, for the debounce window cut
      at the deadline, and has fired only once that is over. */
  ghost predicate Waits(s: Clock, debounce: int, t: string)
    requires t in s.core.timers && s.core.timers[t] in s.live && t in s.core.deadline
  {
    var x := s.live[s.core.timers[t]];
    && IsLatest(s.marks, x.mark, t)
    && (x.due >= s.marks[x.mark].at + debounce || x.due >= s.core.deadline[t])
    && (x.fired ==> x.due <= s.now)
  }

  ghost predicate Debounced(s: Clock, debounce: int) {
    forall t :: t in s.core.timers && s.core.timers[t] in s.live && t in s.core.deadline ==> Waits(s, debounce, t)
  }

  /** Of the timers armed since a tenant's last sweep only the last can still fire. */
  ghost predicate OneArmed(s: Clock) {
    forall x :: x in s.live && !s.live[x].fired && s.live[x].tenant in s.first &&
                s.first[s.live[x].tenant] <= s.live[x].mark ==>
                  s.live[x].tenant in s.core.timers && s.core.timers[s.live[x].tenant] == x
  }

  ghost predicate MarksKnown(s: Clock) {
    forall x :: x in s.live ==> s.live[x].mark < |s.marks|
  }

  lemma DebouncedStep(debounce: int, maxWait: int, s: Clock, a: Label)
    requires Scheduled(s) && Debounced(s, debounce) && Enabled(s, a)
    ensures Debounced(After(debounce, maxWait, s, a), debounce)
  {
    var s' := After(debounce, maxWait, s, a);
    forall t | t in s'.core.timers && s'.core.timers[t] in s'.live && t in s'.core.deadline ensures Waits(s', debounce, t) {
      if !(a.MarkAt? && a.tenant == t) { assert Waits(s, debounce, t); }
    }
  }

  lemma OneArmedStep(debounce: int, maxWait: int, s: Clock, a: Label)
    requires Scheduled(s) && OneArmed(s) && MarksKnown(s) && s.first.Keys == s.core.deadline.Keys && Enabled(s, a)
    ensures OneArmed(After(debounce, maxWait, s, a)) && MarksKnown(After(debounce, maxWait, s, a))
  {
  }

  lemma {:induction false} DebounceInv(debounce: int, maxWait: int, ss: seq<Clock>, labels: seq<Label>, i: nat)
    requires Run(debounce, maxWait, ss, labels) && i < |ss|
    ensures Scheduled(ss[i]) && Dated(ss[i], maxWait) && Debounced(ss[i], debounce) && OneArmed(ss[i]) && MarksKnown(ss[i])
  {
    AlwaysScheduled(debounce, maxWait, ss, labels, i);
    if i > 0 {
      DebounceInv(debounce, maxWait, ss, labels, i - 1);
      DatedStep(debounce, maxWait, ss[i - 1], labels[i - 1]);
      DebouncedStep(debounce, maxWait, ss[i - 1], labels[i - 1]);
      OneArmedStep(debounce, maxWait, ss[i - 1], labels[i - 1]);
    }
  }

  /** In every run a sweep by the timer in charge comes no earlier than the debounce window
      after the tenant's latest mark, or than its deadline, maxWait after the first mark since
      the sweep before. */
  lemma NoSweepTooEarly(debounce: int, maxWait: int, ss: seq<Clock>, labels: seq<Label>, i: nat)
    requires Run(debounce, maxWait, ss, labels) && i < |labels| && labels[i].Sweep?
    requires var t := ss[i].live[labels[i].timer].tenant; t in ss[i].core.timers && ss[i].core.timers[t] == labels[i].timer
    ensures
      var s, t := ss[i], ss[i].live[labels[i].timer].tenant;
      exists k: nat :: IsLatest(s.marks, k, t) && t in s.first && s.first[t] < |s.marks| &&
        (s.now >= s.marks[k].at + debounce || s.now >= s.marks[s.first[t]].at + maxWait)
  {
    DebounceInv(debounce, maxWait, ss, labels, i);
    var s, t := ss[i], ss[i].live[labels[i].timer].tenant;
    assert Waits(s, debounce, t) && FirstOf(s, maxWait, t);
  }

  /** Timer 0 sweeps t although timer 1 is in charge: at once after the latest mark, which it
      takes along. */
  ghost predicate SweepsEarly(s: Clock, s': Clock, t: string, r: Ref) {
    && s.core.timers == map[t := 1] && 0 in s.live && s.live[0].tenant == t
    && |s.marks| == 2 && s.now == s.marks[1].at
    && |s'.batches| == 1 && r in s'.batches[0].envs && s'.batches[0].envs[r] == 1
  }

  ghost predicate CanReach(debounce: int, maxWait: int, s: Clock) {
    exists ss: seq<Clock>, labels :: Run(debounce, maxWait, ss, labels) && ss[|labels|] == s
  }

  lemma ReachNext(debounce: int, maxWait: int, s: Clock, a: Label)
    requires CanReach(debounce, maxWait, s) && Enabled(s, a)
    ensures CanReach(debounce, maxWait, After(debounce, maxWait, s, a))
  {
    var ss: seq<Clock>, labels :| Run(debounce, maxWait, ss, labels) && ss[|labels|] == s;
    assert Run(debounce, maxWait, ss + [After(debounce, maxWait, s, a)], labels + [a]);
  }

  /** One mark, whose timer has fired and waits for the lock. */
  function FiredOnce(debounce: int, maxWait: int, t: string, r: Ref): Clock {
    Clock(debounce, Core(map[t := map[r := 0]], map[t := 0], map[t := maxWait]),
          map[0 := Timer(t, 0, debounce, true)], map[t := 0], [Mark(t, r, 0)], [])
  }

  lemma ReachFired(debounce: int, maxWait: int, t: string, r: Ref)
    requires 0 < debounce <= maxWait
    ensures CanReach(debounce, maxWait, FiredOnce(debounce, maxWait, t, r))
  {
    var s0 := Clock(0, Core(map[], map[], map[]), map[], map[], [], []);
    var none: seq<Label> := [];
    assert Run(debounce, maxWait, [s0], none) && [s0][|none|] == s0;
    var s := FiredOnce(debounce, maxWait, t, r);
    var armed := s.(now := 0, live := map[0 := Timer(t, 0, debounce, false)]);
    ReachNext(debounce, maxWait, s0, MarkAt(t, r, 0));
    assert After(debounce, maxWait, s0, MarkAt(t, r, 0)) == armed;
    ReachNext(debounce, maxWait, armed, Tick(debounce));
    ReachNext(debounce, maxWait, armed.(now := debounce), Fire(0));
    assert armed.live[0 := Timer(t, 0, debounce, true)] == s.live;
  }

  /** There are never more sweeps than marks: a mark arms one timer, a timer sweeps once. */
  lemma {:induction false} NoMoreSweepsThanMarks(debounce: int, maxWait: int, ss: seq<Clock>, labels: seq<Label>, i: nat)
    requires Run(debounce, maxWait, ss, labels) && i < |ss|
    ensures |ss[i].batches| + |ss[i].live| <= |ss[i].marks|
  {
    if i > 0 {
      NoMoreSweepsThanMarks(debounce, maxWait, ss, labels, i - 1);
      CountStep(debounce, maxWait, ss[i - 1], labels[i - 1]);
    }
  }

  lemma CountStep(debounce: int, maxWait: int, s: Clock, a: Label)
    requires Enabled(s, a)
    ensures
      var s' := After(debounce, maxWait, s, a);
      |s'.batches| + |s'.live| + |s.marks| <= |s.batches| + |s.live| + |s'.marks|
  {
    match a
    case MarkAt(tenant, _, timer) =>
      StopCount(s.live, if tenant in s.core.timers then s.core.timers[tenant] else timer);
      PutCount(if tenant in s.core.timers then Stop(s.live, s.core.timers[tenant]) else s.live, timer,
               After(debounce, maxWait, s, a).live[timer]);
    case Fire(timer) => PutCount(s.live, timer, s.live[timer].(fired := true));
    case Sweep(timer) => assert (s.live - {timer}).Keys == s.live.Keys - {timer};
    case Tick(_) =>
  }

  lemma StopCount(live: map<nat, Timer>, timer: nat)
    ensures |Stop(live, timer)| <= |live|
  {
    assert (live - {timer}).Keys == live.Keys - {timer};
  }

  lemma PutCount(live: map<nat, Timer>, timer: nat, x: Timer)
    ensures |live[timer := x]| == |live| + if timer in live then 0 else 1
  {
    assert live[timer := x].Keys == live.Keys + {timer};
  }

  /** A timer that has lost its charge can still sweep early: it had fired when the mark that
      replaced it came to stop it. */
  lemma OrphanSweepsEarly(debounce: int, maxWait: int, t: string, r: Ref)
    requires 0 < debounce <= maxWait
    ensures exists s :: CanReach(debounce, maxWait, s) && Enabled(s, Sweep(0)) &&
                        SweepsEarly(s, After(debounce, maxWait, s, Sweep(0)), t, r)
  {
    ReachFired(debounce, maxWait, t, r);
    var s := FiredOnce(debounce, maxWait, t, r);
    ReachNext(debounce, maxWait, s, MarkAt(t, r, 1));
    var s' := After(debounce, maxWait, s, MarkAt(t, r, 1));
    assert s'.core.timers == map[t := 1];
    assert SweepsEarly(s', After(debounce, maxWait, s', Sweep(0)), t, r);
  }
}
