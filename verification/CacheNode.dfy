/** The two-tier cache of one process: a local tier in front of the tier all nodes share,
    the row reads built on it, and the invalidation that follows a commit. */
module CacheNode {
  import opened CacheTiers
  import opened Wrappers

  const LOCAL := ""
  const SHARED := "k"

  function EntityGens(kind: string, entity: string, parts: seq<string>): (r: seq<GenKey>)
    ensures |r| == |parts| && forall i :: 0 <= i < |parts| ==> r[i] == GenKey(kind, entity, parts[i])
  {
    seq(|parts|, i requires 0 <= i < |parts| => GenKey(kind, entity, parts[i]))
  }

  class SharedCache {
    var t: Tier

    constructor ()
      ensures t == EMPTY
    {
      t := EMPTY;
    }

    /** The key of a row: its partition and the generation stored for its keyspace, 0 when
        none is. */
    method Resolve(r: Ref) returns (s: Slot)
      ensures s == RowSlot(t, SHARED, r)
    {
      var key := GenKey(SHARED, RowName(r.entity), TenantPart(r.tenant));
      var gen := 0;
      if key in t.gens { gen := t.gens[key]; }
      return Slot(key.source, 1, gen, key.part, r.id);
    }

    method Get(r: Ref) returns (v: Option<Row>)
      ensures v == View(t, SHARED, r)
    {
      var s := Resolve(r);
      if s !in t.rows { return None; }
      return Some(t.rows[s]);
    }

    /** From now on readers of `r` see `v`; every other row is seen as before. */
    method Set(r: Ref, v: Row)
      modifies this
      ensures Stored(old(t), t, SHARED, r, v) && t == Put(old(t), SHARED, r, v)
    {
      PutView(t, SHARED, r, v);
      var s := Resolve(r);
      t := Tier(t.gens, t.rows[s := v]);
    }

    /** `r` is gone for readers; every other row is seen as before. */
    method Invalidate(r: Ref)
      modifies this
      ensures Evicted(old(t), t, SHARED, r) && t == Del(old(t), SHARED, r)
    {
      DelEvicts(t, SHARED, r);
      var s := Resolve(r);
      t := Tier(t.gens, t.rows - {s});
    }

    /** All rows of r's entity and tenant are gone for readers, no others. */
    method InvalidateKeyspace(r: Ref)
      modifies this
      ensures KeyspaceHidden(old(t), t, SHARED, r) && t.rows == old(t).rows
      ensures t == Bump(old(t), RowGen(SHARED, r))
    {
      BumpHides(t, SHARED, r);
      var key := GenKey(SHARED, RowName(r.entity), TenantPart(r.tenant));
      var gen := 0;
      if key in t.gens { gen := t.gens[key]; }
      t := Tier(t.gens[key := gen + 1], t.rows);
    }

    method InvalidateEntity(entity: string, parts: seq<string>)
      modifies this
      ensures t == BumpAll(old(t), EntityGens("e", entity, parts))
    {
      ghost var ks := EntityGens("e", entity, parts);
      for i := 0 to |parts|
        invariant t == BumpAll(old(t), ks[..i])
      {
        assert ks[..i + 1][..i] == ks[..i];
        t := Bump(t, GenKey("e", entity, parts[i]));
      }
      assert ks[..|parts|] == ks;
    }
  }

  class L1Cache {
    const inner: SharedCache
    var t: Tier

    constructor (inner: SharedCache)
      ensures this.inner == inner && t == EMPTY
    {
      this.inner := inner;
      t := EMPTY;
    }

    /** The local key of a row, at the local generation. */
    method LocalSlot(r: Ref) returns (s: Slot)
      ensures s == RowSlot(t, LOCAL, r)
    {
      var key := GenKey(LOCAL, RowName(r.entity), TenantPart(r.tenant));
      var gen := 0;
      if key in t.gens { gen := t.gens[key]; }
      return Slot(key.source, 1, gen, key.part, r.id);
    }

    /** Local hit, or shared hit copied into the local tier: readers of other rows see what
        they saw, readers of `r` what was returned. */
    method Get(r: Ref) returns (v: Option<Row>)
      modifies this
      ensures v == if View(old(t), LOCAL, r).Some? then View(old(t), LOCAL, r) else View(inner.t, SHARED, r)
      ensures t == if v.Some? && View(old(t), LOCAL, r).None? then Put(old(t), LOCAL, r, v.value) else old(t)
      ensures forall q :: View(t, LOCAL, q) == if q == r then v else View(old(t), LOCAL, q)
      ensures Past(old(t), LOCAL) ==> Past(t, LOCAL)
    {
      var s := LocalSlot(r);
      if s in t.rows { return Some(t.rows[s]); }
      v := inner.Get(r);
      if v.Some? {
        PutView(t, LOCAL, r, v.value);
        t := Tier(t.gens, t.rows[s := v.value]);
      }
    }

    /** Readers of `r` see `v` in both tiers, readers of other rows what they saw. */
    method Set(r: Ref, v: Row)
      modifies this, inner
      ensures Stored(old(inner.t), inner.t, SHARED, r, v) && Stored(old(t), t, LOCAL, r, v)
      ensures inner.t == Put(old(inner.t), SHARED, r, v) && t == Put(old(t), LOCAL, r, v)
    {
      PutView(t, LOCAL, r, v);
      inner.Set(r, v);
      var s := LocalSlot(r);
      t := Tier(t.gens, t.rows[s := v]);
    }

    /** `r` is gone in both tiers, other rows are seen as before. */
    method Invalidate(r: Ref)
      modifies this, inner
      ensures Evicted(old(inner.t), inner.t, SHARED, r) && Evicted(old(t), t, LOCAL, r)
      ensures inner.t == Del(old(inner.t), SHARED, r) && t == Del(old(t), LOCAL, r)
    {
      DelEvicts(t, LOCAL, r);
      inner.Invalidate(r);
      var s := LocalSlot(r);
      t := Tier(t.gens, t.rows - {s});
    }

    /** All rows of r's entity and tenant are gone in both tiers, no others. */
    method InvalidateKeyspace(r: Ref)
      modifies this, inner
      ensures KeyspaceHidden(old(inner.t), inner.t, SHARED, r) && KeyspaceHidden(old(t), t, LOCAL, r)
      ensures inner.t == Bump(old(inner.t), RowGen(SHARED, r)) && t == Bump(old(t), RowGen(LOCAL, r))
    {
      BumpHides(t, LOCAL, r);
      inner.InvalidateKeyspace(r);
      var key := GenKey(LOCAL, RowName(r.entity), TenantPart(r.tenant));
      var gen := 0;
      if key in t.gens { gen := t.gens[key]; }
      t := Tier(t.gens[key := gen + 1], t.rows);
    }

    method InvalidateEntity(entity: string, parts: seq<string>)
      modifies this, inner
      ensures inner.t == BumpAll(old(inner.t), EntityGens("e", entity, parts))
      ensures t == BumpAll(old(t), EntityGens(LOCAL, entity, parts))
    {
      inner.InvalidateEntity(entity, parts);
      BumpLocal(entity, parts);
    }

    method BumpLocal(entity: string, parts: seq<string>)
      modifies this
      ensures t == BumpAll(old(t), EntityGens(LOCAL, entity, parts))
    {
      ghost var ks := EntityGens(LOCAL, entity, parts);
      for i := 0 to |parts|
        invariant t == BumpAll(old(t), ks[..i])
      {
        assert ks[..i + 1][..i] == ks[..i];
        t := Bump(t, GenKey(LOCAL, entity, parts[i]));
      }
      assert ks[..|parts|] == ks;
    }

    /** A change seen on the event stream: local only, the shared tier is untouched. */
    method EvictLocal(r: Ref, scope: string, cached: set<string>)
      requires Past(t, LOCAL)
      modifies this
      ensures Invalidated(old(t), t, LOCAL, {r}, scope, cached)
    {
      ghost var t0 := t;
      BumpEntityView(t0, LOCAL, r, scope);
      BumpLocal(r.entity, Parts(r.tenant, scope));
      if r.entity !in cached { return; }
      forall q { DelView(t, LOCAL, r, q); }
      t := Del(t, LOCAL, r);
    }
  }

  /** Bumping the entity of a change also hides q's keyspace: the local tier keys its
      generations by name alone, so an entity may share a row keyspace's name. */
  ghost predicate Collides(change: Ref, scope: string, kind: string, q: Ref) {
    kind == LOCAL && change.entity == RowName(q.entity) && TenantPart(q.tenant) in Parts(change.tenant, scope)
  }

  /** What the invalidation of some changes takes out of a tier's view. */
  ghost predicate Hides(changes: set<Ref>, scope: string, cached: set<string>, kind: string, q: Ref) {
    || (q in changes && q.entity in cached)
    || exists c :: c in changes && Collides(c, scope, kind, q)
  }

  // ---- after a commit ----

  function Names(changes: seq<Ref>): set<string> {
    set c | c in changes :: c.entity
  }

  function AsSet(changes: seq<Ref>): set<Ref> {
    set c | c in changes
  }

  ghost predicate Invalidated(t: Tier, t': Tier, kind: string, changes: set<Ref>, scope: string, cached: set<string>) {
    && Past(t', kind)
    && forall q :: View(t', kind, q) == if Hides(changes, scope, cached, kind, q) then None else View(t, kind, q)
  }

  function EntityKind(kind: string): string {
    if kind == LOCAL then LOCAL else "e"
  }

  function BumpEntity(t: Tier, kind: string, c: Ref, scope: string): Tier {
    BumpAll(t, EntityGens(EntityKind(kind), c.entity, Parts(c.tenant, scope)))
  }

  lemma BumpEntityView(t: Tier, kind: string, c: Ref, scope: string)
    requires Past(t, kind) && (kind == LOCAL || kind == SHARED)
    ensures Past(BumpEntity(t, kind, c, scope), kind)
    ensures forall q :: View(BumpEntity(t, kind, c, scope), kind, q) ==
                        if Collides(c, scope, kind, q) then None else View(t, kind, q)
  {
    var ks := EntityGens(EntityKind(kind), c.entity, Parts(c.tenant, scope));
    BumpAllView(t, kind, ks, c);
    forall q ensures RowGen(kind, q) in ks <==> Collides(c, scope, kind, q) {
      if Collides(c, scope, kind, q) {
        var i :| 0 <= i < 3 && Parts(c.tenant, scope)[i] == TenantPart(q.tenant);
        assert ks[i] == RowGen(kind, q);
      }
    }
    forall q { BumpAllView(t, kind, ks, q); }
  }

  /** One change of the batch: the entity's generation is bumped at its first change. */
  function ChangeTier(t: Tier, kind: string, c: Ref, scope: string, cached: set<string>, first: bool): Tier {
    var t' := if first then BumpEntity(t, kind, c, scope) else t;
    if c.entity in cached then Del(t', kind, c) else t'
  }

  lemma ChangeOne(
    t0: Tier, t: Tier, kind: string, done: set<Ref>, c: Ref, scope: string, cached: set<string>, first: bool)
    requires kind == LOCAL || kind == SHARED
    requires Invalidated(t0, t, kind, done, scope, cached)
    requires !first ==> exists d :: d in done && d.entity == c.entity && d.tenant == c.tenant
    ensures Invalidated(t0, ChangeTier(t, kind, c, scope, cached, first), kind, done + {c}, scope, cached)
  {
    BumpEntityView(t, kind, c, scope);
    var t1 := if first then BumpEntity(t, kind, c, scope) else t;
    var t2 := ChangeTier(t, kind, c, scope, cached, first);
    DelView(t1, kind, c, c);
    forall q ensures View(t2, kind, q) == if Hides(done + {c}, scope, cached, kind, q) then None else View(t0, kind, q) {
      DelView(t1, kind, c, q);
      assert Hides(done + {c}, scope, cached, kind, q) <==>
             Hides(done, scope, cached, kind, q) || (q == c && q.entity in cached) || Collides(c, scope, kind, q);
    }
  }

  /** AfterCommit: hides exactly the changed rows (and rows of a keyspace whose name an
      entity shares), bumps each changed entity's shared generations once, and leaves every
      other entry warm. */
  method AfterCommit(c: L1Cache, tenant: string, scope: string, cached: set<string>, changes: seq<Ref>)
    requires Past(c.t, LOCAL) && Past(c.inner.t, SHARED)
    requires forall i :: 0 <= i < |changes| ==> changes[i].tenant == tenant
    modifies c, c.inner
    ensures Invalidated(old(c.t), c.t, LOCAL, AsSet(changes), scope, cached)
    ensures Invalidated(old(c.inner.t), c.inner.t, SHARED, AsSet(changes), scope, cached)
    ensures BumpedOnce(old(c.inner.t), c.inner.t, Names(changes), tenant, scope)
  {
    ghost var l, s := c.t, c.inner.t;
    var seen: set<string> := {};
    for i := 0 to |changes|
      invariant seen == Names(changes[..i])
      invariant Invalidated(l, c.t, LOCAL, AsSet(changes[..i]), scope, cached)
      invariant Invalidated(s, c.inner.t, SHARED, AsSet(changes[..i]), scope, cached)
      invariant BumpedOnce(s, c.inner.t, seen, tenant, scope)
    {
      var ch := changes[i];
      ghost var first := ch.entity !in seen;
      ChangeOne(l, c.t, LOCAL, AsSet(changes[..i]), ch, scope, cached, first);
      ChangeOne(s, c.inner.t, SHARED, AsSet(changes[..i]), ch, scope, cached, first);
      BumpedOneMore(s, c.inner.t, seen, ch, scope, cached);
      assert changes[..i + 1] == changes[..i] + [ch];
      assert AsSet(changes[..i + 1]) == AsSet(changes[..i]) + {ch};
      ApplyChange(c, ch, scope, cached, ch.entity !in seen);
      seen := seen + {ch.entity};
    }
    assert changes[..|changes|] == changes;
  }

  /** One change: the entity's generations on its first occurrence, the row if it is cached. */
  method ApplyChange(c: L1Cache, ch: Ref, scope: string, cached: set<string>, first: bool)
    modifies c, c.inner
    ensures c.t == ChangeTier(old(c.t), LOCAL, ch, scope, cached, first)
    ensures c.inner.t == ChangeTier(old(c.inner.t), SHARED, ch, scope, cached, first)
  {
    if first { c.InvalidateEntity(ch.entity, Parts(ch.tenant, scope)); }
    if ch.entity in cached { c.Invalidate(ch); }
  }

  /** The shared generations of exactly these entities rose, each by one in each partition. */
  ghost predicate BumpedOnce(t: Tier, t': Tier, names: set<string>, tenant: string, scope: string) {
    forall e, p :: Gen(t', GenKey("e", e, p)) ==
      Gen(t, GenKey("e", e, p)) + if e in names && p in Parts(tenant, scope) then 1 else 0
  }

  lemma BumpedOneMore(t0: Tier, t: Tier, seen: set<string>, c: Ref, scope: string, cached: set<string>)
    requires BumpedOnce(t0, t, seen, c.tenant, scope)
    ensures BumpedOnce(t0, ChangeTier(t, SHARED, c, scope, cached, c.entity !in seen), seen + {c.entity}, c.tenant, scope)
  {
    EntityGensOnce(t, c, scope);
  }

  lemma EntityGensOnce(t: Tier, c: Ref, scope: string)
    ensures forall e, p :: Gen(BumpEntity(t, SHARED, c, scope), GenKey("e", e, p)) ==
              Gen(t, GenKey("e", e, p)) + if e == c.entity && p in Parts(c.tenant, scope) then 1 else 0
  {
    var parts := Parts(c.tenant, scope);
    var ks := EntityGens("e", c.entity, parts);
    PartsDistinct(c.tenant, scope);
    assert ks == [GenKey("e", c.entity, parts[0]), GenKey("e", c.entity, parts[1]), GenKey("e", c.entity, parts[2])];
    forall e, p { BumpAllGen(t, ks, GenKey("e", e, p)); }
  }
}
