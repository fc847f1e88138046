/** One cache tier: entries stored under the generation that was current when they were
    written, so bumping a generation orphans them without deleting anything. Rows are
    opaque encoded values; row keyspaces are partitioned by tenant. */
module CacheTiers {
  import opened Wrappers

  datatype Ref = Ref(tenant: string, entity: string, id: string)

  type Row = string

  /** A generation counter: `kind` is "e" or "k" in the shared tier, "" in a node's. */
  datatype GenKey = GenKey(kind: string, source: string, part: string)

  datatype Slot = Slot(name: string, version: nat, gen: nat, part: string, key: string)

  datatype Tier = Tier(gens: map<GenKey, nat>, rows: map<Slot, Row>)

  const EMPTY := Tier(map[], map[])

  // ---- keys ----

  function RowName(entity: string): string {
    entity + ":row"
  }

  function TenantPart(tenant: string): string {
    "t:" + tenant
  }

  /** The partitions a write must bump: global, tenant, tenant and scope. */
  function Parts(tenant: string, scope: string): seq<string> {
    ["g", "t:" + tenant, "t:" + tenant + ":s:" + scope]
  }

  function RowGen(kind: string, r: Ref): GenKey {
    GenKey(kind, RowName(r.entity), TenantPart(r.tenant))
  }

  function Gen(t: Tier, k: GenKey): nat {
    if k in t.gens then t.gens[k] else 0
  }

  function RowSlot(t: Tier, kind: string, r: Ref): Slot {
    Slot(RowName(r.entity), 1, Gen(t, RowGen(kind, r)), TenantPart(r.tenant), r.id)
  }

  lemma KeysInjective(q: Ref, r: Ref)
    ensures RowName(q.entity) == RowName(r.entity) ==> q.entity == r.entity
    ensures TenantPart(q.tenant) == TenantPart(r.tenant) ==> q.tenant == r.tenant
  {
    assert RowName(q.entity)[..|RowName(q.entity)| - 4] == q.entity;
    assert RowName(r.entity)[..|RowName(r.entity)| - 4] == r.entity;
    assert TenantPart(q.tenant)[2..] == q.tenant && TenantPart(r.tenant)[2..] == r.tenant;
  }

  lemma PartsDistinct(tenant: string, scope: string)
    ensures var p := Parts(tenant, scope); p[0] != p[1] && p[0] != p[2] && p[1] != p[2]
  {
    assert |Parts(tenant, scope)[1]| < |Parts(tenant, scope)[2]|;
  }

  // ---- what a reader of the tier sees ----

  /** The row found for `r` under the current generation. */
  function View(t: Tier, kind: string, r: Ref): Option<Row> {
    var s := RowSlot(t, kind, r);
    if s in t.rows then Some(t.rows[s]) else None
  }

  /** No entry is stored under a generation still to come. */
  ghost predicate Past(t: Tier, kind: string) {
    forall s :: s in t.rows ==> s.gen <= Gen(t, GenKey(kind, s.name, s.part))
  }

  function Put(t: Tier, kind: string, r: Ref, v: Row): Tier {
    t.(rows := t.rows[RowSlot(t, kind, r) := v])
  }

  function Del(t: Tier, kind: string, r: Ref): Tier {
    t.(rows := t.rows - {RowSlot(t, kind, r)})
  }

  function Bump(t: Tier, k: GenKey): Tier {
    t.(gens := t.gens[k := Gen(t, k) + 1])
  }

  function BumpAll(t: Tier, ks: seq<GenKey>): Tier {
    if ks == [] then t else Bump(BumpAll(t, ks[..|ks| - 1]), ks[|ks| - 1])
  }

  lemma PutView(t: Tier, kind: string, r: Ref, v: Row)
    ensures forall q :: View(Put(t, kind, r, v), kind, q) == if q == r then Some(v) else View(t, kind, q)
    ensures Past(t, kind) ==> Past(Put(t, kind, r, v), kind)
  {
    forall q ensures View(Put(t, kind, r, v), kind, q) == if q == r then Some(v) else View(t, kind, q) {
      KeysInjective(q, r);
    }
  }

  lemma DelView(t: Tier, kind: string, r: Ref, q: Ref)
    ensures View(Del(t, kind, r), kind, q) == if q == r then None else View(t, kind, q)
    ensures Past(t, kind) ==> Past(Del(t, kind, r), kind)
  {
    KeysInjective(q, r);
  }

  /** A bump hides exactly the rows whose keyspace it belongs to. */
  lemma BumpView(t: Tier, kind: string, k: GenKey, q: Ref)
    requires Past(t, kind)
    ensures View(Bump(t, k), kind, q) == if k == RowGen(kind, q) then None else View(t, kind, q)
    ensures Past(Bump(t, k), kind)
  {
    var s := RowSlot(Bump(t, k), kind, q);
    assert s in t.rows ==> s.gen <= Gen(t, RowGen(kind, q));
  }

  /** The three effects on what readers see, for all rows at once. */
  ghost predicate Stored(t: Tier, t': Tier, kind: string, r: Ref, v: Row) {
    && (Past(t, kind) ==> Past(t', kind))
    && forall q :: View(t', kind, q) == if q == r then Some(v) else View(t, kind, q)
  }

  ghost predicate Evicted(t: Tier, t': Tier, kind: string, r: Ref) {
    && (Past(t, kind) ==> Past(t', kind))
    && forall q :: View(t', kind, q) == if q == r then None else View(t, kind, q)
  }

  /** Every row of r's keyspace and partition is hidden, no other. */
  ghost predicate KeyspaceHidden(t: Tier, t': Tier, kind: string, r: Ref) {
    Past(t, kind) ==>
      && Past(t', kind)
      && forall q :: View(t', kind, q) ==
                     if q.entity == r.entity && q.tenant == r.tenant then None else View(t, kind, q)
  }

  lemma DelEvicts(t: Tier, kind: string, r: Ref)
    ensures Evicted(t, Del(t, kind, r), kind, r)
  {
    DelView(t, kind, r, r);
    forall q { DelView(t, kind, r, q); }
  }

  lemma BumpHides(t: Tier, kind: string, r: Ref)
    ensures KeyspaceHidden(t, Bump(t, RowGen(kind, r)), kind, r)
  {
    if Past(t, kind) {
      BumpView(t, kind, RowGen(kind, r), r);
      forall q
        ensures View(Bump(t, RowGen(kind, r)), kind, q) ==
                if q.entity == r.entity && q.tenant == r.tenant then None else View(t, kind, q)
      {
        BumpView(t, kind, RowGen(kind, r), q);
        KeysInjective(q, r);
      }
    }
  }

  lemma {:induction false} BumpAllView(t: Tier, kind: string, ks: seq<GenKey>, q: Ref)
    requires Past(t, kind)
    ensures View(BumpAll(t, ks), kind, q) == if RowGen(kind, q) in ks then None else View(t, kind, q)
    ensures Past(BumpAll(t, ks), kind)
  {
    if ks != [] {
      var n := |ks| - 1;
      assert ks == ks[..n] + [ks[n]];
      BumpAllView(t, kind, ks[..n], q);
      BumpView(BumpAll(t, ks[..n]), kind, ks[n], q);
    }
  }

  lemma {:induction false} BumpAllGen(t: Tier, ks: seq<GenKey>, k: GenKey)
    ensures Gen(BumpAll(t, ks), k) == Gen(t, k) + multiset(ks)[k]
    ensures BumpAll(t, ks).rows == t.rows
  {
    if ks != [] {
      var n := |ks| - 1;
      assert ks == ks[..n] + [ks[n]];
      BumpAllGen(t, ks[..n], k);
    }
  }

  /** A tier after LRU evictions and expiries. */
  ghost predicate Dropped(t: Tier, t': Tier) {
    t'.gens == t.gens && t'.rows.Keys <= t.rows.Keys && forall s :: s in t'.rows ==> t'.rows[s] == t.rows[s]
  }

  lemma DropView(t: Tier, t': Tier, kind: string, q: Ref)
    requires Dropped(t, t')
    ensures View(t', kind, q) == None || View(t', kind, q) == View(t, kind, q)
    ensures Past(t, kind) ==> Past(t', kind)
  {
  }
}
