/** The DuckDB sink: one row per key, updated in place behind a version gate. */
module DuckSink {
  import opened AnalyticsModel
  import opened MergeTree
  import opened Wrappers

  datatype Duck = Duck(facts: map<Key, FactDoc>, events: map<EventKey, EventDoc>, applied: map<Key, int>)

  // ---- what each statement does to its table ----

  /** INSERT .. ON CONFLICT with the CASE gate: a stored row yields only to a greater version. */
  function GateFact(m: map<Key, FactDoc>, f: Fact): map<Key, FactDoc> {
    if f.key in m && f.version <= m[f.key].meta.version then m else m[f.key := f.Stored()]
  }

  function GateFacts(m: map<Key, FactDoc>, fs: seq<Fact>): map<Key, FactDoc> {
    if fs == [] then m else GateFact(GateFacts(m, fs[..|fs| - 1]), fs[|fs| - 1])
  }

  /** INSERT .. ON CONFLICT DO NOTHING. */
  function AddEvent(m: map<EventKey, EventDoc>, e: Event): map<EventKey, EventDoc> {
    if e.id in m then m else m[e.id := e.Stored()]
  }

  function AddEvents(m: map<EventKey, EventDoc>, es: seq<Event>): map<EventKey, EventDoc> {
    if es == [] then m else AddEvent(AddEvents(m, es[..|es| - 1]), es[|es| - 1])
  }

  function GateMark(m: map<Key, int>, w: Mark): map<Key, int> {
    if w.key in m && w.version <= m[w.key] then m else m[w.key := w.version]
  }

  function GateMarks(m: map<Key, int>, ws: seq<Mark>): map<Key, int> {
    if ws == [] then m else GateMark(GateMarks(m, ws[..|ws| - 1]), ws[|ws| - 1])
  }

  /** Every payload in scope passes the transform. */
  ghost predicate Transforms<K(!new), M>(m: map<K, Doc<M>>, scope: K -> bool, f: Transform) {
    forall k :: k in m && scope(k) ==> f(m[k].payload).Some?
  }

  function Rewrite<M>(d: Doc<M>, f: Transform): Doc<M> {
    match f(d.payload) case Some(p) => d.(payload := p) case None => d
  }

  /** The table with every payload in scope passed through the transform. */
  function Rewritten<K, M>(m: map<K, Doc<M>>, scope: K -> bool, f: Transform): (r: map<K, Doc<M>>) {
    map k | k in m :: if scope(k) then Rewrite(m[k], f) else m[k]
  }

  /** The keys whose payload the transform alters. */
  function Altered<K, M(==)>(m: map<K, Doc<M>>, scope: K -> bool, f: Transform): set<K> {
    set k | k in m && scope(k) && Rewrite(m[k], f) != m[k]
  }

  /** One call: the new state and the number it returns. Reprojections are taken
      where every transform succeeds (`Transforms` on both tables). */
  function Step(d: Duck, call: Call): (Duck, int) {
    match call
    case UpsertFacts(fs) => (d.(facts := GateFacts(d.facts, fs)), 0)
    case AppendEvents(es) => (d.(events := AddEvents(d.events, es)), 0)
    case SetWatermark(ws) => (d.(applied := GateMarks(d.applied, ws)), 0)
    case Reproject(t, a, f) =>
      (d.(facts := Rewritten(d.facts, FactScope(t, a), f), events := Rewritten(d.events, EventScope(t, a), f)),
       |Altered(d.facts, FactScope(t, a), f)| + |Altered(d.events, EventScope(t, a), f)|)
    case Prune(cutoff) =>
      (d.(events := Without(d.events, Stale(d.events, cutoff))), |Matching(d.events, Stale(d.events, cutoff))|)
    case Purge(t) => (Kept(d, t), Doomed(d, t))
  }

  /** The rows of the other tenants, and how many the tenant has. */
  function Kept(d: Duck, t: string): Duck {
    Duck(Without(d.facts, KeyOf(t)), Without(d.events, EventKeyOf(t)), Without(d.applied, KeyOf(t)))
  }

  function Doomed(d: Duck, t: string): nat {
    |Matching(d.facts, KeyOf(t))| + |Matching(d.events, EventKeyOf(t))| + |Matching(d.applied, KeyOf(t))|
  }

  function Stale(m: map<EventKey, EventDoc>, cutoff: int): EventKey -> bool {
    (k: EventKey) => k in m && m[k].meta.at < cutoff
  }

  function Watermark(d: Duck, k: Key): int {
    if k in d.applied then d.applied[k] else 0
  }

  // ---- what the gate means ----

  /** An upsert batch keeps every key and never lowers a version. */
  lemma {:induction false} UpsertNeverLowers(m: map<Key, FactDoc>, fs: seq<Fact>)
    ensures m.Keys <= GateFacts(m, fs).Keys
    ensures forall k :: k in m ==> m[k].meta.version <= GateFacts(m, fs)[k].meta.version
  {
    if fs != [] { UpsertNeverLowers(m, fs[..|fs| - 1]); }
  }

  /** Nothing in the batch is newer than what its key ends up with. */
  lemma {:induction false} UpsertTakesNewest(m: map<Key, FactDoc>, fs: seq<Fact>, f: Fact)
    requires f in fs
    ensures f.key in GateFacts(m, fs) && f.version <= GateFacts(m, fs)[f.key].meta.version
  {
    var pre, last := fs[..|fs| - 1], fs[|fs| - 1];
    assert fs == pre + [last];
    if f in pre { UpsertTakesNewest(m, pre, f); }
  }

  ghost predicate FromBatch(fs: seq<Fact>, k: Key, d: FactDoc) {
    exists f :: f in fs && f.key == k && d == f.Stored()
  }

  /** What a key holds afterwards was there before or came with the batch. */
  lemma {:induction false} UpsertInventsNothing(m: map<Key, FactDoc>, fs: seq<Fact>, k: Key)
    requires k in GateFacts(m, fs)
    ensures (k in m && GateFacts(m, fs)[k] == m[k]) || FromBatch(fs, k, GateFacts(m, fs)[k])
  {
    if fs != [] {
      var pre, f := fs[..|fs| - 1], fs[|fs| - 1];
      assert fs == pre + [f];
      if k in GateFacts(m, pre) {
        UpsertInventsNothing(m, pre, k);
        if FromBatch(pre, k, GateFacts(m, pre)[k]) {
          var g :| g in pre && g.key == k && GateFacts(m, pre)[k] == g.Stored();
          assert g in fs;
        }
      }
    }
  }

  /** After an upsert batch each key holds a newest one of its stored row and the batch. */
  lemma UpsertKeepsNewest(m: map<Key, FactDoc>, fs: seq<Fact>)
    ensures m.Keys <= GateFacts(m, fs).Keys
    ensures forall k :: k in m ==> m[k].meta.version <= GateFacts(m, fs)[k].meta.version
    ensures forall f :: f in fs ==> f.key in GateFacts(m, fs) && f.version <= GateFacts(m, fs)[f.key].meta.version
    ensures forall k :: k in GateFacts(m, fs) ==>
              (k in m && GateFacts(m, fs)[k] == m[k]) || FromBatch(fs, k, GateFacts(m, fs)[k])
  {
    UpsertNeverLowers(m, fs);
    forall f | f in fs { UpsertTakesNewest(m, fs, f); }
    forall k | k in GateFacts(m, fs) { UpsertInventsNothing(m, fs, k); }
  }

  /** One table after a successful reprojection: rows elsewhere as they were, every other row
      with its payload transformed and the rest of it as it was. */
  ghost predicate Reshaped<K(!new), M(!new)>(m: map<K, Doc<M>>, m': map<K, Doc<M>>, elsewhere: K -> bool, f: Transform) {
    && m'.Keys == m.Keys
    && forall k :: k in m ==>
         if elsewhere(k) then m'[k] == m[k]
         else f(m[k].payload).Some? && m'[k] == Doc(f(m[k].payload).value, m[k].meta)
  }

  /** The rows whose payload that changes. */
  ghost function Reworded<K, M>(m: map<K, Doc<M>>, elsewhere: K -> bool, f: Transform): set<K> {
    set k | k in m && !elsewhere(k) && f(m[k].payload) != Some(m[k].payload)
  }

  /** A successful reprojection of a tenant, row by row and in total. */
  ghost predicate Reprojected(d: Duck, d': Duck, tenant: string, aggregate: string, f: Transform, n: int) {
    var fs, es := (k: Key) => Elsewhere(k, tenant, aggregate), (k: EventKey) => Elsewhere(k.key, tenant, aggregate);
    && Reshaped(d.facts, d'.facts, fs, f) && Reshaped(d.events, d'.events, es, f) && d'.applied == d.applied
    && n == |Reworded(d.facts, fs, f)| + |Reworded(d.events, es, f)|
  }

  /** The transform takes every payload it is given. */
  ghost predicate Accepts(d: Duck, tenant: string, aggregate: string, f: Transform) {
    && (forall k :: k in d.facts && !Elsewhere(k, tenant, aggregate) ==> f(d.facts[k].payload).Some?)
    && (forall k :: k in d.events && !Elsewhere(k.key, tenant, aggregate) ==> f(d.events[k].payload).Some?)
  }

  lemma ReprojectsTable<K(!new), M(!new)>(m: map<K, Doc<M>>, scope: K -> bool, elsewhere: K -> bool, f: Transform)
    requires Transforms(m, scope, f) && forall k :: scope(k) <==> !elsewhere(k)
    ensures Reshaped(m, Rewritten(m, scope, f), elsewhere, f) && Altered(m, scope, f) == Reworded(m, elsewhere, f)
  {
  }

  /** What a reprojection reaches: the tenant's rows, of one aggregate if one is named. */
  lemma ReprojectReaches(d: Duck, tenant: string, aggregate: string, f: Transform)
    requires Accepts(d, tenant, aggregate, f)
    ensures
      var r := Step(d, Reproject(tenant, aggregate, f));
      Reprojected(d, r.0, tenant, aggregate, f, r.1)
  {
    ReprojectsTable(d.facts, FactScope(tenant, aggregate), (k: Key) => Elsewhere(k, tenant, aggregate), f);
    ReprojectsTable(d.events, EventScope(tenant, aggregate), (k: EventKey) => Elsewhere(k.key, tenant, aggregate), f);
  }

  /** Running a successful reprojection again alters nothing when the transform is idempotent. */
  lemma ReprojectTwice<K(!new), M(!new)>(m: map<K, Doc<M>>, scope: K -> bool, f: Transform)
    requires Transforms(m, scope, f)
    requires forall p :: f(p).Some? ==> f(f(p).value) == f(p)
    ensures Altered(Rewritten(m, scope, f), scope, f) == {}
    ensures Rewritten(Rewritten(m, scope, f), scope, f) == Rewritten(m, scope, f)
  {
    var m' := Rewritten(m, scope, f);
    forall k | k in m' && scope(k) ensures Rewrite(m'[k], f) == m'[k] {
      assert f(m[k].payload).Some?;
    }
  }

  /** The table with just the keys in `done` rewritten. */
  function Partly<K, M>(m: map<K, Doc<M>>, f: Transform, done: set<K>): map<K, Doc<M>> {
    map k | k in m :: if k in done then Rewrite(m[k], f) else m[k]
  }

  function Hits<K, M(==)>(m: map<K, Doc<M>>, f: Transform, done: set<K>): set<K> {
    set k | k in m && k in done && Rewrite(m[k], f) != m[k]
  }

  /** A reprojection stopped at a payload the transform rejects: some keys in scope are
      rewritten, n of them with a change, the rest are as before. */
  ghost predicate Stopped<K(!new), M(!new)>(
    m: map<K, Doc<M>>, m': map<K, Doc<M>>, scope: K -> bool, f: Transform, n: int) {
    exists done, bad ::
      && done <= (set k | k in m && scope(k)) && bad in m && scope(bad) && bad !in done
      && f(m[bad].payload).None? && m' == Partly(m, f, done) && n == |Hits(m, f, done)|
  }

  lemma PartlyOneMore<K(!new), M(!new)>(m: map<K, Doc<M>>, f: Transform, done: set<K>, k: K)
    requires k in m
    ensures Partly(m, f, done + {k}) == Partly(m, f, done)[k := Rewrite(m[k], f)]
    ensures k !in done ==> |Hits(m, f, done + {k})| == |Hits(m, f, done)| + if Rewrite(m[k], f) != m[k] then 1 else 0
  {
    assert Hits(m, f, done + {k}) == Hits(m, f, done) + if Rewrite(m[k], f) != m[k] then {k} else {};
  }

  /** The SELECT-then-UPDATE loop of a reprojection over one table: it stops at the
      first payload the transform rejects, leaving the rows before it rewritten. */
  method RewriteTable<K(!new), M(!new, ==)>(m: map<K, Doc<M>>, scope: K -> bool, f: Transform)
    returns (m': map<K, Doc<M>>, n: nat, ok: bool)
    ensures ok <==> Transforms(m, scope, f)
    ensures ok ==> m' == Rewritten(m, scope, f) && n == |Altered(m, scope, f)|
    ensures !ok ==> Stopped(m, m', scope, f, n)
  {
    var all := set k | k in m && scope(k);
    var todo := all;
    m', n, ok := m, 0, true;
    assert Hits(m, f, all - todo) == {};
    while todo != {}
      invariant todo <= all
      invariant forall k :: k in all - todo ==> f(m[k].payload).Some?
      invariant m' == Partly(m, f, all - todo)
      invariant n == |Hits(m, f, all - todo)|
      decreases todo
    {
      var k :| k in todo;
      var np := f(m[k].payload);
      if np.None? {
        ok := false;
        return;
      }
      PartlyOneMore(m, f, all - todo, k);
      assert all - (todo - {k}) == (all - todo) + {k};
      if np.value != m[k].payload {
        n := n + 1;
      }
      m' := m'[k := m[k].(payload := np.value)];
      todo := todo - {k};
    }
    assert all - todo == all;
    assert m' == Rewritten(m, scope, f);
    assert Hits(m, f, all) == Altered(m, scope, f);
  }

  class Sink {
    var facts: map<Key, FactDoc>
    var events: map<EventKey, EventDoc>
    var applied: map<Key, int>

    function State(): Duck
      reads this
    {
      Duck(facts, events, applied)
    }

    constructor ()
      ensures State() == Duck(map[], map[], map[])
    {
      facts, events, applied := map[], map[], map[];
    }

    method UpsertFacts(fs: seq<Fact>)
      modifies this
      ensures State() == Step(old(State()), Call.UpsertFacts(fs)).0
    {
      for i := 0 to |fs|
        invariant facts == GateFacts(old(facts), fs[..i])
        invariant events == old(events) && applied == old(applied)
      {
        assert fs[..i + 1][..i] == fs[..i];
        var f := fs[i];
        if f.key !in facts {
          facts := facts[f.key := f.Stored()];
        } else {
          var cur := facts[f.key];
          var newer := f.version > cur.meta.version;
          facts := facts[f.key := Doc(
              if newer then f.payload else cur.payload,
              FactMeta(if newer then f.version else cur.meta.version,
                       if newer then f.at else cur.meta.at,
                       if newer then f.deleted else cur.meta.deleted))];
        }
      }
      assert fs[..|fs|] == fs;
    }

    method AppendEvents(es: seq<Event>)
      modifies this
      ensures State() == Step(old(State()), Call.AppendEvents(es)).0
    {
      for i := 0 to |es|
        invariant events == AddEvents(old(events), es[..i])
        invariant facts == old(facts) && applied == old(applied)
      {
        assert es[..i + 1][..i] == es[..i];
        if es[i].id !in events {
          events := events[es[i].id := es[i].Stored()];
        }
      }
      assert es[..|es|] == es;
    }

    method SetWatermark(ws: seq<Mark>)
      modifies this
      ensures State() == Step(old(State()), Call.SetWatermark(ws)).0
    {
      for i := 0 to |ws|
        invariant applied == GateMarks(old(applied), ws[..i])
        invariant facts == old(facts) && events == old(events)
      {
        assert ws[..i + 1][..i] == ws[..i];
        var w := ws[i];
        applied := applied[w.key :=
            if w.key in applied && !(w.version > applied[w.key]) then applied[w.key] else w.version];
      }
      assert ws[..|ws|] == ws;
    }

    /** Facts first, then events; each table keeps the rewrites made before a failure. */
    method ReprojectTenant(tenant: string, aggregate: string, f: Transform) returns (n: nat, ok: bool)
      modifies this
      ensures ok <==> Accepts(old(State()), tenant, aggregate, f)
      ensures ok ==> (State(), n) == Step(old(State()), Reproject(tenant, aggregate, f))
      ensures ok ==> Reprojected(old(State()), State(), tenant, aggregate, f, n)
      ensures applied == old(applied)
      ensures !ok && !Transforms(old(facts), FactScope(tenant, aggregate), f) ==>
                && events == old(events)
                && Stopped(old(facts), facts, FactScope(tenant, aggregate), f, n)
      ensures !ok && Transforms(old(facts), FactScope(tenant, aggregate), f) ==>
                && facts == Rewritten(old(facts), FactScope(tenant, aggregate), f)
                && Stopped(old(events), events, EventScope(tenant, aggregate), f,
                           n - |Altered(old(facts), FactScope(tenant, aggregate), f)|)
    {
      var nf, ne;
      facts, nf, ok := RewriteTable(facts, FactScope(tenant, aggregate), f);
      if !ok { return nf, false; }
      events, ne, ok := RewriteTable(events, EventScope(tenant, aggregate), f);
      n := nf + ne;
      if ok { ReprojectReaches(old(State()), tenant, aggregate, f); }
    }

    /** Deletes the events older than the cutoff, keeps every other row, and returns how many
        rows went. */
    method PruneEvents(olderThan: int) returns (n: nat)
      modifies this
      ensures forall k :: k in events <==> k in old(events) && old(events)[k].meta.at >= olderThan
      ensures forall k :: k in events ==> events[k] == old(events)[k]
      ensures facts == old(facts) && applied == old(applied)
      ensures n == |old(events)| - |events|
      ensures (State(), n) == Step(old(State()), Prune(olderThan))
    {
      events, n := DeleteRows(events, Stale(events, olderThan));
    }

    /** Leaves no row of the tenant and every row of the others, and returns how many went. */
    method PurgeTenant(tenant: string) returns (n: nat)
      modifies this
      ensures PurgedOf(old(State()), State(), tenant) && n == Size(old(State())) - Size(State())
      ensures (State(), n) == Step(old(State()), Purge(tenant))
    {
      var d: Duck;
      d, n := PurgeTables(Duck(facts, events, applied), tenant);
      facts, events, applied := d.facts, d.events, d.applied;
    }
  }

  /** No row of the tenant is left in any table, every other row is, unchanged. */
  ghost predicate PurgedOf(d: Duck, d': Duck, tenant: string) {
    && Remain(d.facts, d'.facts, (k: Key) => k.tenant == tenant)
    && Remain(d.events, d'.events, (k: EventKey) => k.key.tenant == tenant)
    && Remain(d.applied, d'.applied, (k: Key) => k.tenant == tenant)
  }

  /** The rows of all three tables. */
  function Size(d: Duck): nat {
    |d.facts| + |d.events| + |d.applied|
  }

  /** One DELETE per table, their counts added up. */
  method PurgeTables(d: Duck, tenant: string) returns (d': Duck, n: nat)
    ensures PurgedOf(d, d', tenant) && n == Size(d) - Size(d')
    ensures d' == Kept(d, tenant) && n == Doomed(d, tenant)
  {
    var facts, nf := DeleteRows(d.facts, KeyOf(tenant));
    var events, ne := DeleteRows(d.events, EventKeyOf(tenant));
    var applied, na := DeleteRows(d.applied, KeyOf(tenant));
    return Duck(facts, events, applied), nf + ne + na;
  }

  /** Exactly the rows that are not gone are left, unchanged. */
  ghost predicate Remain<K(!new), V(!new)>(m: map<K, V>, m': map<K, V>, gone: K -> bool) {
    && (forall k :: k in m' <==> k in m && !gone(k))
    && (forall k :: k in m' ==> m'[k] == m[k])
  }

  lemma DropOne<K(!new), V(!new)>(m: map<K, V>, done: set<K>, k: K)
    requires k in m && k !in done
    ensures m - (done + {k}) == (m - done) - {k} && |m - (done + {k})| == |m - done| - 1
  {
    assert (m - done).Keys == (m - (done + {k})).Keys + {k};
  }

  method DropKeys<K(!new, ==), V(!new)>(m: map<K, V>, doomed: set<K>) returns (m': map<K, V>, n: nat)
    requires doomed <= m.Keys
    ensures m' == m - doomed && n == |doomed| == |m| - |m'|
  {
    var left := doomed;
    m', n := m, 0;
    ghost var done: set<K> := {};
    assert m - done == m;
    while left != {}
      invariant done !! left && done + left == doomed
      invariant m' == m - done && n == |done| == |m| - |m'|
      decreases left
    {
      var k :| k in left;
      DropOne(m, done, k);
      m', n, left := m' - {k}, n + 1, left - {k};
      done := done + {k};
    }
    assert done == doomed;
  }

  /** DELETE .. RETURNING 1, counting the rows returned. */
  method DeleteRows<K(!new, ==), V(!new)>(m: map<K, V>, gone: K -> bool) returns (m': map<K, V>, n: nat)
    ensures m' == Without(m, gone) && Remain(m, m', gone)
    ensures n == |Matching(m, gone)| == |m| - |m'|
  {
    m', n := DropKeys(m, Matching(m, gone));
    assert m - Matching(m, gone) == Without(m, gone);
  }
}
