/** Row reads through the cache: per-id hits, one batch load of the misses. */
module CacheReads {
  import opened CacheTiers
  import opened CacheNode
  import opened Wrappers

  type Database = map<Ref, Row>

  function DbRow(db: Database, r: Ref): Option<Row> {
    if r in db then Some(db[r]) else None
  }

  /** What the two tiers answer for `r`. */
  function Tiers(l1: Tier, l2: Tier, r: Ref): Option<Row> {
    if View(l1, LOCAL, r).Some? then View(l1, LOCAL, r) else View(l2, SHARED, r)
  }

  /** What a read of `r` answers. */
  function Answer(l1: Tier, l2: Tier, db: Database, r: Ref): Option<Row> {
    if Tiers(l1, l2, r).Some? then Tiers(l1, l2, r) else DbRow(db, r)
  }

  /** The tiers after reading `want`: every answer is now local, and the shared tier has
      gained exactly the rows that neither tier held. */
  ghost predicate Filled(l1: Tier, l2: Tier, db: Database, l1': Tier, l2': Tier, want: set<Ref>) {
    && Past(l1', LOCAL) && Past(l2', SHARED)
    && (forall r :: View(l1', LOCAL, r) == if r in want then Answer(l1, l2, db, r) else View(l1, LOCAL, r))
    && (forall r :: View(l2', SHARED, r) ==
                    if r in want && Tiers(l1, l2, r).None? then DbRow(db, r) else View(l2, SHARED, r))
  }

  lemma HitFills(l1: Tier, l2: Tier, db: Database, r: Ref)
    requires Past(l1, LOCAL) && Past(l2, SHARED) && Tiers(l1, l2, r).Some?
    ensures View(l1, LOCAL, r).Some? ==> Filled(l1, l2, db, l1, l2, {r})
    ensures Filled(l1, l2, db, Put(l1, LOCAL, r, Tiers(l1, l2, r).value), l2, {r})
  {
    PutView(l1, LOCAL, r, Tiers(l1, l2, r).value);
  }

  lemma LoadFills(l1: Tier, l2: Tier, db: Database, r: Ref)
    requires Past(l1, LOCAL) && Past(l2, SHARED) && Tiers(l1, l2, r).None?
    ensures r !in db ==> Filled(l1, l2, db, l1, l2, {r})
    ensures r in db ==> Filled(l1, l2, db, Put(l1, LOCAL, r, db[r]), Put(l2, SHARED, r, db[r]), {r})
  {
    if r in db {
      PutView(l1, LOCAL, r, db[r]);
      PutView(l2, SHARED, r, db[r]);
    }
  }

  /** The rows of `ids` in the order asked for, missing ones skipped. */
  function Assemble(ids: seq<string>, f: string -> Option<Row>): seq<Row> {
    if ids == [] then [] else
      var n := |ids| - 1;
      Assemble(ids[..n], f) + (if f(ids[n]).Some? then [f(ids[n]).value] else [])
  }

  /** `rows` are the answers for `ids`, in the order asked for: each row answers the id at its
      position, the positions ascend, and no id with an answer is left out. */
  ghost predicate InAskedOrder(ids: seq<string>, f: string -> Option<Row>, rows: seq<Row>) {
    exists pos: seq<nat> :: Positions(ids, f, rows, pos)
  }

  ghost predicate Positions(ids: seq<string>, f: string -> Option<Row>, rows: seq<Row>, pos: seq<nat>) {
    && |pos| == |rows|
    && (forall k :: 0 <= k < |pos| ==> pos[k] < |ids| && f(ids[pos[k]]) == Some(rows[k]))
    && (forall k, l :: 0 <= k < l < |pos| ==> pos[k] < pos[l])
    && (forall i: nat :: i < |ids| && f(ids[i]).Some? ==> i in pos)
  }

  /** One more id, with or without an answer. */
  lemma PositionsHit(ids: seq<string>, f: string -> Option<Row>, rows: seq<Row>, pos: seq<nat>, id: string)
    requires Positions(ids, f, rows, pos) && f(id).Some?
    ensures Positions(ids + [id], f, rows + [f(id).value], pos + [|ids|])
  {
    var ids', pos' := ids + [id], pos + [|ids|];
    assert pos'[|pos|] == |ids|;
    forall i: nat | i < |ids'| && f(ids'[i]).Some? ensures i in pos' {
      if i < |ids| {
        assert ids'[i] == ids[i];
        var k :| 0 <= k < |pos| && pos[k] == i;
        assert pos'[k] == i;
      }
    }
  }

  lemma PositionsMiss(ids: seq<string>, f: string -> Option<Row>, rows: seq<Row>, pos: seq<nat>, id: string)
    requires Positions(ids, f, rows, pos) && f(id).None?
    ensures Positions(ids + [id], f, rows, pos)
  {
    forall i: nat | i < |ids + [id]| && f((ids + [id])[i]).Some? ensures i in pos {
      if i < |ids| { assert (ids + [id])[i] == ids[i]; }
    }
  }

  lemma {:induction false} AssembledInOrder(ids: seq<string>, f: string -> Option<Row>)
    ensures InAskedOrder(ids, f, Assemble(ids, f))
  {
    if ids == [] {
      assert Positions(ids, f, Assemble(ids, f), []);
    } else {
      var n := |ids| - 1;
      var pre, rows := ids[..n], Assemble(ids[..n], f);
      AssembledInOrder(pre, f);
      AskedOrderNext(pre, f, rows, ids[n]);
      assert ids == pre + [ids[n]];
    }
  }

  lemma AskedOrderNext(ids: seq<string>, f: string -> Option<Row>, rows: seq<Row>, id: string)
    requires InAskedOrder(ids, f, rows)
    ensures InAskedOrder(ids + [id], f, rows + if f(id).Some? then [f(id).value] else [])
  {
    var pos :| Positions(ids, f, rows, pos);
    if f(id).Some? {
      PositionsHit(ids, f, rows, pos, id);
    } else {
      PositionsMiss(ids, f, rows, pos, id);
      assert rows + [] == rows;
    }
  }

  lemma {:induction false} AssembleSame(ids: seq<string>, f: string -> Option<Row>, g: string -> Option<Row>)
    requires forall id :: id in ids ==> f(id) == g(id)
    ensures Assemble(ids, f) == Assemble(ids, g)
  {
    if ids != [] {
      var n := |ids| - 1;
      assert ids[n] in ids;
      AssembleSame(ids[..n], f, g);
    }
  }

  function Refs(tenant: string, entity: string, ids: seq<string>): set<Ref> {
    set id | id in ids :: Ref(tenant, entity, id)
  }

  function NamedRefs(tenant: string, entity: string, ids: seq<string>): set<Ref> {
    set id | id in ids && id != "" :: Ref(tenant, entity, id)
  }

  /** The rows a batch read can place: those with an id. */
  function Named(db: Database): Database {
    map r | r in db && r.id != "" :: db[r]
  }

  class CachedRelational {
    const cache: L1Cache
    const cached: set<string>

    constructor (cache: L1Cache, cached: set<string>)
      ensures this.cache == cache && this.cached == cached
    {
      this.cache := cache;
      this.cached := cached;
    }

    method Get(db: Database, r: Ref) returns (v: Option<Row>)
      requires Past(cache.t, LOCAL) && Past(cache.inner.t, SHARED)
      modifies cache, cache.inner
      ensures v == if r.entity in cached then Answer(old(cache.t), old(cache.inner.t), db, r) else DbRow(db, r)
      ensures Filled(old(cache.t), old(cache.inner.t), db, cache.t, cache.inner.t, if r.entity in cached then {r} else {})
    {
      if r.entity !in cached { return DbRow(db, r); }
      ghost var l1, l2 := cache.t, cache.inner.t;
      v := cache.Get(r);
      if v.Some? {
        HitFills(l1, l2, db, r);
        return;
      }
      LoadFills(l1, l2, db, r);
      v := DbRow(db, r);
      if v.Some? { cache.Set(r, v.value); }
    }

    /** The inner querier's batch read: the ids that exist, in some order. */
    method LoadMany(db: Database, tenant: string, entity: string, ids: seq<string>) returns (found: seq<string>)
      ensures forall id :: id in found <==> id in ids && Ref(tenant, entity, id) in db
    {
      found := [];
      for i := 0 to |ids|
        invariant forall id :: id in found <==> id in ids[..i] && Ref(tenant, entity, id) in db
      {
        if Ref(tenant, entity, ids[i]) in db { found := found + [ids[i]]; }
      }
    }

    /** First pass: probe the tiers id by id. */
    method Probe(tenant: string, entity: string, ids: seq<string>)
      returns (byID: map<string, Row>, miss: seq<string>)
      requires Past(cache.t, LOCAL)
      modifies cache
      ensures Past(cache.t, LOCAL)
      ensures forall r :: View(cache.t, LOCAL, r) ==
                if r in Refs(tenant, entity, ids) then Tiers(old(cache.t), cache.inner.t, r) else View(old(cache.t), LOCAL, r)
      ensures forall id :: id in byID <==> id in ids && Tiers(old(cache.t), cache.inner.t, Ref(tenant, entity, id)).Some?
      ensures forall id :: id in byID ==> Some(byID[id]) == Tiers(old(cache.t), cache.inner.t, Ref(tenant, entity, id))
      ensures forall id :: id in miss <==> id in ids && Tiers(old(cache.t), cache.inner.t, Ref(tenant, entity, id)).None?
    {
      byID, miss := map[], [];
      ghost var l1, l2 := cache.t, cache.inner.t;
      for i := 0 to |ids|
        invariant Past(cache.t, LOCAL)
        invariant forall r :: View(cache.t, LOCAL, r) ==
                    if r in Refs(tenant, entity, ids[..i]) then Tiers(l1, l2, r) else View(l1, LOCAL, r)
        invariant forall id :: id in byID <==> id in ids[..i] && Tiers(l1, l2, Ref(tenant, entity, id)).Some?
        invariant forall id :: id in byID ==> Some(byID[id]) == Tiers(l1, l2, Ref(tenant, entity, id))
        invariant forall id :: id in miss <==> id in ids[..i] && Tiers(l1, l2, Ref(tenant, entity, id)).None?
      {
        var r := Ref(tenant, entity, ids[i]);
        var v := cache.Get(r);
        assert v == Tiers(l1, l2, r);
        if v.Some? {
          byID := byID[ids[i] := v.value];
        } else {
          miss := miss + [ids[i]];
        }
        assert Refs(tenant, entity, ids[..i + 1]) == Refs(tenant, entity, ids[..i]) + {r};
      }
      assert ids[..|ids|] == ids;
    }

    /** Second pass: cache each loaded row; one without an id is passed over. */
    method Store(db: Database, tenant: string, entity: string, found: seq<string>, hits: map<string, Row>)
      returns (byID: map<string, Row>)
      requires Past(cache.t, LOCAL) && Past(cache.inner.t, SHARED)
      requires forall id :: id in found ==> Ref(tenant, entity, id) in db
      modifies cache, cache.inner
      ensures Past(cache.t, LOCAL) && Past(cache.inner.t, SHARED)
      ensures forall r :: View(cache.t, LOCAL, r) ==
                if r in NamedRefs(tenant, entity, found) then DbRow(db, r) else View(old(cache.t), LOCAL, r)
      ensures forall r :: View(cache.inner.t, SHARED, r) ==
                if r in NamedRefs(tenant, entity, found) then DbRow(db, r) else View(old(cache.inner.t), SHARED, r)
      ensures forall id :: id in byID <==> id in hits || (id in found && id != "")
      ensures forall id :: id in byID ==>
                byID[id] == if id in found && id != "" then db[Ref(tenant, entity, id)] else hits[id]
    {
      byID := hits;
      ghost var l1, l2 := cache.t, cache.inner.t;
      for i := 0 to |found|
        invariant Past(cache.t, LOCAL) && Past(cache.inner.t, SHARED)
        invariant forall r :: View(cache.t, LOCAL, r) ==
                    if r in NamedRefs(tenant, entity, found[..i]) then DbRow(db, r) else View(l1, LOCAL, r)
        invariant forall r :: View(cache.inner.t, SHARED, r) ==
                    if r in NamedRefs(tenant, entity, found[..i]) then DbRow(db, r) else View(l2, SHARED, r)
        invariant forall id :: id in byID <==> id in hits || (id in found[..i] && id != "")
        invariant forall id :: id in byID ==>
                    byID[id] == if id in found[..i] && id != "" then db[Ref(tenant, entity, id)] else hits[id]
      {
        var id := found[i];
        var r := Ref(tenant, entity, id);
        assert NamedRefs(tenant, entity, found[..i + 1]) ==
               NamedRefs(tenant, entity, found[..i]) + if id != "" then {r} else {};
        if id != "" {
          byID := byID[id := db[r]];
          cache.Set(r, db[r]);
        }
      }
      assert found[..|found|] == found;
    }

    /** Third pass: the requested order. */
    method Order(ids: seq<string>, byID: map<string, Row>) returns (rows: seq<Row>)
      ensures rows == Assemble(ids, id => if id in byID then Some(byID[id]) else None)
      ensures InAskedOrder(ids, id => if id in byID then Some(byID[id]) else None, rows)
    {
      rows := [];
      ghost var f := id => if id in byID then Some(byID[id]) else None;
      for i := 0 to |ids|
        invariant rows == Assemble(ids[..i], f)
      {
        assert ids[..i + 1][..i] == ids[..i];
        if ids[i] in byID { rows := rows + [byID[ids[i]]]; }
      }
      assert ids[..|ids|] == ids;
      AssembledInOrder(ids, f);
    }

    /** The inner querier's answer, for types that are not cached. */
    method LoadAll(db: Database, tenant: string, entity: string, ids: seq<string>) returns (rows: seq<Row>)
      ensures rows == Assemble(ids, id => DbRow(db, Ref(tenant, entity, id)))
      ensures InAskedOrder(ids, id => DbRow(db, Ref(tenant, entity, id)), rows)
    {
      var all := map id | id in ids && Ref(tenant, entity, id) in db :: db[Ref(tenant, entity, id)];
      rows := Order(ids, all);
      AssembleSame(ids, id => DbRow(db, Ref(tenant, entity, id)), id => if id in all then Some(all[id]) else None);
      AssembledInOrder(ids, id => DbRow(db, Ref(tenant, entity, id)));
    }

    method GetMany(db: Database, tenant: string, entity: string, ids: seq<string>) returns (rows: seq<Row>)
      requires Past(cache.t, LOCAL) && Past(cache.inner.t, SHARED)
      modifies cache, cache.inner
      ensures entity in cached ==>
                && Answered(old(cache.t), old(cache.inner.t), Named(db), tenant, entity, ids, rows)
                && Filled(old(cache.t), old(cache.inner.t), Named(db), cache.t, cache.inner.t, Refs(tenant, entity, ids))
      ensures entity !in cached ==>
                && InAskedOrder(ids, id => DbRow(db, Ref(tenant, entity, id)), rows)
                && cache.t == old(cache.t) && cache.inner.t == old(cache.inner.t)
    {
      if entity !in cached {
        rows := LoadAll(db, tenant, entity, ids);
        return;
      }
      ghost var l1, l2 := cache.t, cache.inner.t;
      var byID, miss := Probe(tenant, entity, ids);
      if |miss| > 0 {
        var found := LoadMany(db, tenant, entity, miss);
        byID := Store(db, tenant, entity, found, byID);
      }
      rows := Order(ids, byID);
      ghost var named := Named(db);
      forall id | id in ids ensures (if id in byID then Some(byID[id]) else None) == Answer(l1, l2, named, Ref(tenant, entity, id)) {
      }
      AnsweredBy(l1, l2, named, tenant, entity, ids, byID, rows);
    }
  }

  /** The rows a batch read answers with, in the order asked for. */
  ghost predicate Answered(l1: Tier, l2: Tier, db: Database, tenant: string, entity: string, ids: seq<string>, rows: seq<Row>) {
    var f := id => Answer(l1, l2, db, Ref(tenant, entity, id));
    rows == Assemble(ids, f) && InAskedOrder(ids, f, rows)
  }

  lemma AnsweredBy(l1: Tier, l2: Tier, db: Database, tenant: string, entity: string, ids: seq<string>,
                   byID: map<string, Row>, rows: seq<Row>)
    requires rows == Assemble(ids, id => if id in byID then Some(byID[id]) else None)
    requires forall id :: id in ids ==> (if id in byID then Some(byID[id]) else None) == Answer(l1, l2, db, Ref(tenant, entity, id))
    ensures Answered(l1, l2, db, tenant, entity, ids, rows)
  {
    var f := id => Answer(l1, l2, db, Ref(tenant, entity, id));
    AssembleSame(ids, f, id => if id in byID then Some(byID[id]) else None);
    AssembledInOrder(ids, f);
  }
}
