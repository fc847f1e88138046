/** The ClickHouse sink: three append-only ReplacingMergeTree tables, read with
    argMax and max, ordered by a packed 64-bit word. */
module ClickHouseSink {
  import opened AnalyticsModel
  import opened MergeTree
  import opened Wrappers

  /** UInt64 arithmetic wraps at 2^64; the low 20 bits count reprojections. */
  const WORD := 0x1_0000_0000_0000_0000
  const SLOTS := 0x10_0000
  const MAX_VERSION := 0x1000_0000_0000

  datatype House = House(
    facts: Table<Key, FactDoc>, events: Table<EventKey, EventDoc>, applied: Table<Key, int>)

  /** uint64(version) << 20. */
  function PackDedup(version: int): int {
    (version % WORD) * SLOTS % WORD
  }

  /** dd + 1 on a UInt64. */
  function Next(rank: int): int {
    if rank + 1 == WORD then 0 else rank + 1
  }

  function FactRow(f: Fact): Row<Key, FactDoc> { Row(f.key, f.Stored(), PackDedup(f.version)) }
  function EventRow(e: Event): Row<EventKey, EventDoc> { Row(e.id, e.Stored(), 0) }
  function MarkRow(w: Mark): Row<Key, int> { Row(w.key, w.version, w.version) }

  function Rows<A, K(==), V(==)>(row: A -> Row<K, V>, xs: seq<A>): Table<K, V> {
    if xs == [] then multiset{} else Rows(row, xs[..|xs| - 1]) + multiset{row(xs[|xs| - 1])}
  }

  // ---- reprojection ----

  /** Row `r` re-inserts its key's winner with a changed payload, one rank higher. Each
      column of the grouped argMax query comes from some winning row, `p` and `q` here. */
  ghost predicate Rewrites<K(!new), M(!new)>(t: Table<K, Doc<M>>, f: Transform, r: Row<K, Doc<M>>) {
    exists p, q ::
      && Wins(t, p) && Wins(t, q) && p.key == r.key && q.key == r.key
      && f(p.value.payload).Some? && f(p.value.payload).value != p.value.payload
      && r == Row(r.key, Doc(f(p.value.payload).value, q.value.meta), Next(p.rank))
  }

  /** Key `k` needs no rewrite: the transform accepted its payload and changed nothing. */
  ghost predicate Settled<K(!new), M(!new)>(t: Table<K, Doc<M>>, f: Transform, k: K) {
    exists p :: Wins(t, p) && p.key == k && f(p.value.payload) == Some(p.value.payload)
  }

  /** The rows one successful pass over a table inserts, by key. */
  ghost predicate RewriteSet<K(!new), M(!new)>(
    t: Table<K, Doc<M>>, scope: K -> bool, f: Transform, up: map<K, Row<K, Doc<M>>>)
  {
    && (forall k {:trigger Rewrites(t, f, up[k])} :: k in up ==> up[k].key == k && scope(k) && Rewrites(t, f, up[k]))
    && (forall k {:trigger Settled(t, f, k)} :: k in Keys(t) && scope(k) ==> k in up || Settled(t, f, k))
  }

  // ---- one call as a relation: argMax ties and scan order are left open ----

  ghost predicate Step(c: House, call: Call, c': House, n: int) {
    match call
    case UpsertFacts(fs) => c' == c.(facts := c.facts + Rows(FactRow, fs)) && n == 0
    case AppendEvents(es) => c' == c.(events := c.events + Rows(EventRow, es)) && n == 0
    case SetWatermark(ws) => c' == c.(applied := c.applied + Rows(MarkRow, ws)) && n == 0
    case Reproject(t, a, f) =>
      exists fu, eu ::
        && RewriteSet(c.facts, FactScope(t, a), f, fu)
        && RewriteSet(c.events, EventScope(t, a), f, eu)
        && c' == c.(facts := c.facts + multiset(fu.Values), events := c.events + multiset(eu.Values))
        && n == |fu| + |eu|
    case Prune(cutoff) =>
      && Deleted(c.events, c'.events, StaleEvent(cutoff))
      && c' == c.(events := c'.events)
      && n == |Hit(c.events, StaleEvent(cutoff))|
    case Purge(t) =>
      && Deleted(c.facts, c'.facts, FactOf(t))
      && Deleted(c.events, c'.events, EventOf(t))
      && Deleted(c.applied, c'.applied, MarkOf(t))
      && n == |Hit(c.facts, FactOf(t))| + |Hit(c.events, EventOf(t))| + |Hit(c.applied, MarkOf(t))|
  }

  /** Background merges on any of the three tables. */
  ghost predicate Compacted(c: House, c': House) {
    Merged(c.facts, c'.facts) && Merged(c.events, c'.events) && Merged(c.applied, c'.applied)
  }

  function StaleEvent(cutoff: int): Row<EventKey, EventDoc> -> bool {
    (r: Row<EventKey, EventDoc>) => r.value.meta.at < cutoff
  }
  function FactOf(tenant: string): Row<Key, FactDoc> -> bool {
    (r: Row<Key, FactDoc>) => r.key.tenant == tenant
  }
  function EventOf(tenant: string): Row<EventKey, EventDoc> -> bool {
    (r: Row<EventKey, EventDoc>) => r.key.key.tenant == tenant
  }
  function MarkOf(tenant: string): Row<Key, int> -> bool {
    (r: Row<Key, int>) => r.key.tenant == tenant
  }

  /** max(version) for a key, 0 over no rows. */
  ghost predicate IsWatermark(t: Table<Key, int>, k: Key, v: int) {
    if k in Keys(t) then exists r :: Wins(t, r) && r.key == k && r.value == v else v == 0
  }

  // ---- the statements as code ----

  method DeleteWhere<K(!new, ==), V(!new, ==)>(t: Table<K, V>, p: Row<K, V> -> bool) returns (t': Table<K, V>)
    ensures Deleted(t, t', p)
  {
    var doomed := set r | r in t && p(r);
    var left := doomed;
    t' := t;
    while left != {}
      invariant left <= doomed
      invariant forall r :: t'[r] == if p(r) && r !in left then 0 else t[r]
      decreases left
    {
      var r :| r in left;
      t' := t'[r := 0];
      left := left - {r};
    }
  }

  /** argMax over one group: a row that no row of the key outranks. */
  method ArgMax<K(!new, ==), V(!new, ==)>(t: Table<K, V>, k: K) returns (w: Row<K, V>)
    requires k in Keys(t)
    ensures Wins(t, w) && w.key == k
  {
    var left := set r | r in t && r.key == k;
    ghost var any :| any in t && any.key == k;
    assert any in left;
    w :| w in left;
    left := left - {w};
    while left != {}
      invariant forall r :: r in left ==> r in t && r.key == k
      invariant w in t && w.key == k
      invariant forall s :: s in t && s.key == k ==> s in left || s.rank <= w.rank
      decreases left
    {
      var s :| s in left;
      if w.rank < s.rank { w := s; }
      left := left - {s};
    }
  }

  /** Some winning payload in scope does not pass the transform. */
  ghost predicate Rejects<K(!new), M(!new)>(t: Table<K, Doc<M>>, scope: K -> bool, f: Transform) {
    exists r :: Wins(t, r) && scope(r.key) && f(r.value.payload).None?
  }

  /** The scan of a reprojection: collect the rewrites of every group, or stop at the
      first payload the transform rejects with nothing written. */
  method CollectRewrites<K(!new, ==), M(!new, ==)>(t: Table<K, Doc<M>>, scope: K -> bool, f: Transform)
    returns (up: map<K, Row<K, Doc<M>>>, ok: bool)
    ensures ok ==> RewriteSet(t, scope, f, up)
    ensures !ok ==> Rejects(t, scope, f)
  {
    up, ok := map[], true;
    var todo := set r | r in t && scope(r.key) :: r.key;
    while todo != {}
      invariant todo <= Keys(t) && forall k :: k in todo ==> scope(k)
      invariant todo !! up.Keys
      invariant forall k {:trigger Rewrites(t, f, up[k])} :: k in up ==> up[k].key == k && scope(k) && Rewrites(t, f, up[k])
      invariant forall k {:trigger Settled(t, f, k)} :: k in Keys(t) && scope(k) ==> k in todo || k in up || Settled(t, f, k)
      decreases todo
    {
      var k :| k in todo;
      var w := ArgMax(t, k);
      var np := f(w.value.payload);
      if np.None? {
        ok := false;
        return;
      }
      ghost var before, was := up, todo;
      if np.value != w.value.payload {
        var row := Row(k, w.value.(payload := np.value), Next(w.rank));
        assert Rewrites(t, f, row);
        up := up[k := row];
      } else {
        assert Settled(t, f, k);
      }
      todo := todo - {k};
      forall x | x in up ensures up[x].key == x && scope(x) && Rewrites(t, f, up[x]) {
        if x != k { assert up[x] == before[x] && Rewrites(t, f, before[x]); }
      }
      forall x | x in Keys(t) && scope(x) ensures x in todo || x in up || Settled(t, f, x) {
        if x != k { assert x in was || x in before || Settled(t, f, x); }
      }
    }
  }

  class Sink {
    var facts: Table<Key, FactDoc>
    var events: Table<EventKey, EventDoc>
    var applied: Table<Key, int>

    function State(): House
      reads this
    {
      House(facts, events, applied)
    }

    constructor ()
      ensures State() == House(multiset{}, multiset{}, multiset{})
    {
      facts, events, applied := multiset{}, multiset{}, multiset{};
    }

    method UpsertFacts(fs: seq<Fact>)
      modifies this
      ensures Step(old(State()), Call.UpsertFacts(fs), State(), 0)
    {
      var batch: Table<Key, FactDoc> := multiset{};
      for i := 0 to |fs|
        invariant batch == Rows(FactRow, fs[..i])
      {
        assert fs[..i + 1][..i] == fs[..i];
        batch := batch + multiset{FactRow(fs[i])};
      }
      assert fs[..|fs|] == fs;
      facts := facts + batch;
    }

    method AppendEvents(es: seq<Event>)
      modifies this
      ensures Step(old(State()), Call.AppendEvents(es), State(), 0)
    {
      var batch: Table<EventKey, EventDoc> := multiset{};
      for i := 0 to |es|
        invariant batch == Rows(EventRow, es[..i])
      {
        assert es[..i + 1][..i] == es[..i];
        batch := batch + multiset{EventRow(es[i])};
      }
      assert es[..|es|] == es;
      events := events + batch;
    }

    method SetWatermark(ws: seq<Mark>)
      modifies this
      ensures Step(old(State()), Call.SetWatermark(ws), State(), 0)
    {
      var batch: Table<Key, int> := multiset{};
      for i := 0 to |ws|
        invariant batch == Rows(MarkRow, ws[..i])
      {
        assert ws[..i + 1][..i] == ws[..i];
        batch := batch + multiset{MarkRow(ws[i])};
      }
      assert ws[..|ws|] == ws;
      applied := applied + batch;
    }

    method Watermark(k: Key) returns (v: int)
      ensures IsWatermark(applied, k, v)
    {
      if k !in Keys(applied) { return 0; }
      var w := ArgMax(applied, k);
      v := w.value;
    }

    /** Each table is scanned in full before anything is inserted into it, so a rejected
        fact leaves the sink untouched and a rejected event leaves the facts rewritten. */
    method ReprojectTenant(tenant: string, aggregate: string, f: Transform) returns (n: nat, ok: bool)
      modifies this
      ensures ok ==> Step(old(State()), Reproject(tenant, aggregate, f), State(), n)
      ensures !ok ==> events == old(events) && applied == old(applied)
      ensures !ok ==>
        || (n == 0 && facts == old(facts) && Rejects(old(facts), FactScope(tenant, aggregate), f))
        || (&& Rejects(old(events), EventScope(tenant, aggregate), f)
            && exists fu :: RewriteSet(old(facts), FactScope(tenant, aggregate), f, fu)
                            && facts == old(facts) + multiset(fu.Values) && n == |fu|)
    {
      var fu, eu;
      fu, ok := CollectRewrites(facts, FactScope(tenant, aggregate), f);
      if !ok { return 0, false; }
      facts := facts + multiset(fu.Values);
      n := |fu|;
      eu, ok := CollectRewrites(events, EventScope(tenant, aggregate), f);
      if !ok { return; }
      events := events + multiset(eu.Values);
      n := n + |eu|;
    }

    method PruneEvents(olderThan: int) returns (n: nat)
      modifies this
      ensures Step(old(State()), Prune(olderThan), State(), n)
    {
      n := |Hit(events, StaleEvent(olderThan))|;
      if n == 0 {
        NoHits(events, StaleEvent(olderThan));
        return;
      }
      events := DeleteWhere(events, StaleEvent(olderThan));
    }

    method PurgeTenant(tenant: string) returns (n: nat)
      modifies this
      ensures Step(old(State()), Purge(tenant), State(), n)
    {
      var nf, ne, na := |Hit(facts, FactOf(tenant))|, |Hit(events, EventOf(tenant))|, |Hit(applied, MarkOf(tenant))|;
      if nf != 0 { facts := DeleteWhere(facts, FactOf(tenant)); } else { NoHits(facts, FactOf(tenant)); }
      if ne != 0 { events := DeleteWhere(events, EventOf(tenant)); } else { NoHits(events, EventOf(tenant)); }
      if na != 0 { applied := DeleteWhere(applied, MarkOf(tenant)); } else { NoHits(applied, MarkOf(tenant)); }
      n := nf + ne + na;
    }
  }

  /** Skipping a DELETE that counted no rows is the same as running it. */
  lemma NoHits<K(!new), V(!new)>(t: Table<K, V>, p: Row<K, V> -> bool)
    requires |Hit(t, p)| == 0
    ensures Deleted(t, t, p)
  {
    assert forall r :: r in t && p(r) ==> r.key in Hit(t, p);
  }
}
