/** Many nodes, one shared tier, one database and one event log. A cache call and a commit
    with its invalidation are one step each; evictions happen at any time. The tiers are keyed
    by records; CacheKeys.TextStandsForRecords says for which entity names the source's key
    text does the same, and everything here rests on such names. */
module CacheSystem {
  import opened CacheTiers
  import opened CacheNode
  import opened CacheReads
  import opened Wrappers

  datatype Change = Change(ref: Ref, row: Option<Row>)

  datatype Event = Event(ref: Ref, scope: string)

  /** A node's local tier and its position in the log. */
  datatype Node = Node(l1: Tier, pos: nat)

  datatype Sys = Sys(db: Database, log: seq<Event>, l2: Tier, nodes: seq<Node>)

  datatype Label =
    | Read(n: nat, want: set<Ref>, loaded: Database)  // `loaded`: the rows the load delivers
    | Commit(n: nat, scope: string, changes: seq<Change>)
    | Tail(n: nat)
    | Flush(n: nat, r: Ref)
    | DropLocal(n: nat)
    | DropShared
    | Join

  function Apply(db: Database, changes: seq<Change>): Database {
    if changes == [] then db else
      var n := |changes| - 1;
      var before, c := Apply(db, changes[..n]), changes[n];
      if c.row.Some? then before[c.ref := c.row.value] else before - {c.ref}
  }

  function RefsOf(changes: seq<Change>): seq<Ref> {
    seq(|changes|, i requires 0 <= i < |changes| => changes[i].ref)
  }

  function EventsOf(changes: seq<Change>, scope: string): seq<Event> {
    seq(|changes|, i requires 0 <= i < |changes| => Event(changes[i].ref, scope))
  }

  ghost predicate Next(cached: set<string>, s: Sys, s': Sys, a: Label) {
    match a
    case Read(n, want, loaded) =>
      && n < |s.nodes| == |s'.nodes| && (forall r :: r in want ==> r.entity in cached)
      && s' == s.(l2 := s'.l2, nodes := s.nodes[n := s.nodes[n].(l1 := s'.nodes[n].l1)])
      && (forall r :: r in loaded ==> r in s.db && loaded[r] == s.db[r])
      && Filled(s.nodes[n].l1, s.l2, loaded, s'.nodes[n].l1, s'.l2, want)
    case Commit(n, scope, changes) =>
      && n < |s.nodes| == |s'.nodes|
      && s' == s.(db := Apply(s.db, changes), log := s.log + EventsOf(changes, scope),
                  l2 := s'.l2, nodes := s.nodes[n := s.nodes[n].(l1 := s'.nodes[n].l1)])
      && Invalidated(s.nodes[n].l1, s'.nodes[n].l1, LOCAL, AsSet(RefsOf(changes)), scope, cached)
      && Invalidated(s.l2, s'.l2, SHARED, AsSet(RefsOf(changes)), scope, cached)
    case Tail(n) =>
      && n < |s.nodes| == |s'.nodes| && s.nodes[n].pos < |s.log|
      && s' == s.(nodes := s.nodes[n := Node(s'.nodes[n].l1, s.nodes[n].pos + 1)])
      && var e := s.log[s.nodes[n].pos];
      Invalidated(s.nodes[n].l1, s'.nodes[n].l1, LOCAL, {e.ref}, e.scope, cached)
    case Flush(n, r) =>
      && n < |s.nodes|
      && s' == s.(l2 := Bump(s.l2, RowGen(SHARED, r)),
                  nodes := s.nodes[n := s.nodes[n].(l1 := Bump(s.nodes[n].l1, RowGen(LOCAL, r)))])
    case DropLocal(n) =>
      && n < |s.nodes| == |s'.nodes|
      && s' == s.(nodes := s.nodes[n := s.nodes[n].(l1 := s'.nodes[n].l1)])
      && Dropped(s.nodes[n].l1, s'.nodes[n].l1)
    case DropShared => s' == s.(l2 := s'.l2) && Dropped(s.l2, s'.l2)
    case Join => s' == s.(nodes := s.nodes + [Node(EMPTY, |s.log|)])
  }

  ghost predicate Initial(s: Sys) {
    s.log == [] && s.l2 == EMPTY && s.nodes == []
  }

  // ---- the invariant ----

  ghost predicate Pending(log: seq<Event>, pos: nat, r: Ref) {
    exists j :: pos <= j < |log| && log[j].ref == r
  }

  ghost predicate SharedCoherent(cached: set<string>, db: Database, l2: Tier) {
    && Past(l2, SHARED)
    && forall r :: View(l2, SHARED, r).Some? ==> r.entity in cached && View(l2, SHARED, r) == DbRow(db, r)
  }

  ghost predicate NodeCoherent(cached: set<string>, db: Database, log: seq<Event>, x: Node) {
    && Past(x.l1, LOCAL) && x.pos <= |log|
    && forall r :: View(x.l1, LOCAL, r).Some? ==>
                     r.entity in cached && (View(x.l1, LOCAL, r) == DbRow(db, r) || Pending(log, x.pos, r))
  }

  ghost predicate Coherent(cached: set<string>, s: Sys) {
    && SharedCoherent(cached, s.db, s.l2)
    && forall n :: 0 <= n < |s.nodes| ==> NodeCoherent(cached, s.db, s.log, s.nodes[n])
  }

  lemma {:induction false} ApplyElsewhere(db: Database, changes: seq<Change>, r: Ref)
    requires r !in RefsOf(changes)
    ensures DbRow(Apply(db, changes), r) == DbRow(db, r)
  {
    if changes != [] {
      var n := |changes| - 1;
      assert RefsOf(changes) == RefsOf(changes[..n]) + [changes[n].ref];
      ApplyElsewhere(db, changes[..n], r);
    }
  }

  lemma PendingAfter(log: seq<Event>, changes: seq<Change>, scope: string, pos: nat, r: Ref)
    requires pos <= |log|
    ensures Pending(log + EventsOf(changes, scope), pos, r) <==> Pending(log, pos, r) || r in RefsOf(changes)
  {
    var log' := log + EventsOf(changes, scope);
    if Pending(log, pos, r) {
      var j :| pos <= j < |log| && log[j].ref == r;
      assert log'[j] == log[j];
    }
    if r in RefsOf(changes) {
      var j :| 0 <= j < |changes| && RefsOf(changes)[j] == r;
      assert log'[|log| + j].ref == r;
    }
    if Pending(log', pos, r) {
      var j :| pos <= j < |log'| && log'[j].ref == r;
      if j < |log| {
        assert log[j].ref == r;
      } else {
        assert RefsOf(changes)[j - |log|] == r;
      }
    }
  }

  lemma ReadKeeps(cached: set<string>, s: Sys, s': Sys, a: Label)
    requires Coherent(cached, s) && Next(cached, s, s', a) && a.Read?
    ensures Coherent(cached, s')
  {
    assert NodeCoherent(cached, s.db, s.log, s.nodes[a.n]);
  }

  /** Another node's entry for a changed row has the change's event ahead of it. */
  lemma OthersAfterCommit(cached: set<string>, s: Sys, x: Node, scope: string, changes: seq<Change>)
    requires NodeCoherent(cached, s.db, s.log, x)
    ensures NodeCoherent(cached, Apply(s.db, changes), s.log + EventsOf(changes, scope), x)
  {
    forall r | View(x.l1, LOCAL, r).Some?
      ensures View(x.l1, LOCAL, r) == DbRow(Apply(s.db, changes), r) || Pending(s.log + EventsOf(changes, scope), x.pos, r)
    {
      PendingAfter(s.log, changes, scope, x.pos, r);
      if r !in RefsOf(changes) { ApplyElsewhere(s.db, changes, r); }
    }
  }

  /** An invalidated tier shows only what the node's tier showed before. */
  lemma ShrinkKeeps(cached: set<string>, db: Database, log: seq<Event>, x: Node, l1: Tier)
    requires NodeCoherent(cached, db, log, x) && Past(l1, LOCAL)
    requires forall r :: View(l1, LOCAL, r).None? || View(l1, LOCAL, r) == View(x.l1, LOCAL, r)
    ensures NodeCoherent(cached, db, log, x.(l1 := l1))
  {
  }

  lemma CommitKeeps(cached: set<string>, s: Sys, s': Sys, a: Label)
    requires Coherent(cached, s) && Next(cached, s, s', a) && a.Commit?
    ensures Coherent(cached, s')
  {
    forall n | 0 <= n < |s.nodes| ensures NodeCoherent(cached, s'.db, s'.log, s.nodes[n]) {
      OthersAfterCommit(cached, s, s.nodes[n], a.scope, a.changes);
    }
    ShrinkKeeps(cached, s'.db, s'.log, s.nodes[a.n], s'.nodes[a.n].l1);
    forall r | View(s'.l2, SHARED, r).Some? ensures r.entity in cached && View(s'.l2, SHARED, r) == DbRow(s'.db, r) {
      assert r !in RefsOf(a.changes);
      ApplyElsewhere(s.db, a.changes, r);
    }
  }

  lemma TailKeeps(cached: set<string>, s: Sys, s': Sys, a: Label)
    requires Coherent(cached, s) && Next(cached, s, s', a) && a.Tail?
    ensures Coherent(cached, s')
  {
    var x, x' := s.nodes[a.n], s'.nodes[a.n];
    assert NodeCoherent(cached, s.db, s.log, x);
    forall r | View(x'.l1, LOCAL, r).Some?
      ensures View(x'.l1, LOCAL, r) == DbRow(s.db, r) || Pending(s.log, x'.pos, r)
    {
      if Pending(s.log, x.pos, r) {
        var j :| x.pos <= j < |s.log| && s.log[j].ref == r;
        assert r != s.log[x.pos].ref;
        assert s.log[j].ref == r && j >= x'.pos;
      }
    }
  }

  lemma OtherKeeps(cached: set<string>, s: Sys, s': Sys, a: Label)
    requires Coherent(cached, s) && Next(cached, s, s', a)
    requires a.Flush? || a.DropLocal? || a.DropShared? || a.Join?
    ensures Coherent(cached, s')
  {
    match a {
      case Flush(n, r) =>
        assert NodeCoherent(cached, s.db, s.log, s.nodes[n]);
        forall q { BumpView(s.l2, SHARED, RowGen(SHARED, r), q); }
        forall q { BumpView(s.nodes[n].l1, LOCAL, RowGen(LOCAL, r), q); }
        BumpView(s.l2, SHARED, RowGen(SHARED, r), r);
        BumpView(s.nodes[n].l1, LOCAL, RowGen(LOCAL, r), r);
        ShrinkKeeps(cached, s.db, s.log, s.nodes[n], s'.nodes[n].l1);
      case DropLocal(n) =>
        assert NodeCoherent(cached, s.db, s.log, s.nodes[n]);
        forall q { DropView(s.nodes[n].l1, s'.nodes[n].l1, LOCAL, q); }
        ShrinkKeeps(cached, s.db, s.log, s.nodes[n], s'.nodes[n].l1);
      case DropShared =>
        forall q { DropView(s.l2, s'.l2, SHARED, q); }
      case Join =>
        assert NodeCoherent(cached, s.db, s.log, Node(EMPTY, |s.log|));
    }
  }

  // ---- runs ----

  ghost predicate Run(cached: set<string>, states: seq<Sys>, labels: seq<Label>) {
    && |states| == |labels| + 1 && Initial(states[0])
    && forall i :: 0 <= i < |labels| ==> Next(cached, states[i], states[i + 1], labels[i])
  }

  /** In every run the shared tier equals the database and every local entry equals it or
      has an event for its id still ahead of the node. */
  lemma {:induction false} EveryRunCoherent(cached: set<string>, states: seq<Sys>, labels: seq<Label>, i: nat)
    requires Run(cached, states, labels) && i < |states|
    ensures Coherent(cached, states[i])
  {
    if i == 0 {
      assert states[0].l2 == EMPTY;
    } else {
      EveryRunCoherent(cached, states, labels, i - 1);
      var a := labels[i - 1];
      if a.Read? {
        ReadKeeps(cached, states[i - 1], states[i], a);
      } else if a.Commit? {
        CommitKeeps(cached, states[i - 1], states[i], a);
      } else if a.Tail? {
        TailKeeps(cached, states[i - 1], states[i], a);
      } else {
        OtherKeeps(cached, states[i - 1], states[i], a);
      }
    }
  }

  /** A read answers the database's row unless an event for that very id is still ahead
      of the node; a drained node reads exactly what the inner querier returns, in batches
      unless a row without an id is asked for. */
  lemma ReadsAreFresh(cached: set<string>, s: Sys, n: nat, tenant: string, entity: string, ids: seq<string>)
    requires Coherent(cached, s) && n < |s.nodes|
    ensures forall r :: Answer(s.nodes[n].l1, s.l2, s.db, r) == DbRow(s.db, r) || Pending(s.log, s.nodes[n].pos, r)
    ensures s.nodes[n].pos == |s.log| ==> forall r :: Answer(s.nodes[n].l1, s.l2, s.db, r) == DbRow(s.db, r)
    ensures s.nodes[n].pos == |s.log| && ("" in ids ==> Ref(tenant, entity, "") !in s.db) ==>
              InAskedOrder(ids, id => DbRow(s.db, Ref(tenant, entity, id)),
                           Assemble(ids, id => Answer(s.nodes[n].l1, s.l2, Named(s.db), Ref(tenant, entity, id))))
  {
    var x, named := s.nodes[n], Named(s.db);
    assert NodeCoherent(cached, s.db, s.log, x);
    forall r ensures Answer(x.l1, s.l2, s.db, r) == DbRow(s.db, r) || Pending(s.log, x.pos, r) {
    }
    if x.pos == |s.log| && ("" in ids ==> Ref(tenant, entity, "") !in s.db) {
      forall id | id in ids ensures Answer(x.l1, s.l2, named, Ref(tenant, entity, id)) == DbRow(s.db, Ref(tenant, entity, id)) {
        assert Answer(x.l1, s.l2, s.db, Ref(tenant, entity, id)) == DbRow(s.db, Ref(tenant, entity, id));
      }
      AssembleSame(ids, id => Answer(x.l1, s.l2, named, Ref(tenant, entity, id)), id => DbRow(s.db, Ref(tenant, entity, id)));
      AssembledInOrder(ids, id => DbRow(s.db, Ref(tenant, entity, id)));
    }
  }

  // ---- what each step moves, and that it can happen ----

  /** The database and the log move by commits alone, a node's position by its tailed events, and
      a new node starts at the end of the log. */
  lemma Bookkeeping(cached: set<string>, s: Sys, s': Sys, a: Label)
    requires Next(cached, s, s', a)
    ensures a.Commit? ==> && s'.db == Apply(s.db, a.changes) && |s'.log| == |s.log| + |a.changes| && s.log <= s'.log
                          && forall i :: 0 <= i < |a.changes| ==> s'.log[|s.log| + i] == Event(a.changes[i].ref, a.scope)
    ensures !a.Commit? ==> s'.db == s.db && s'.log == s.log
    ensures |s'.nodes| == |s.nodes| + if a.Join? then 1 else 0
    ensures forall j :: 0 <= j < |s.nodes| ==> s'.nodes[j].pos == s.nodes[j].pos + if a == Tail(j) then 1 else 0
    ensures a.Join? ==> s'.nodes[|s.nodes|] == Node(EMPTY, |s.log|)
  {
  }

  /** A tier after a batch of changes, entity by entity and row by row. */
  function Batched(t: Tier, kind: string, changes: seq<Ref>, scope: string, cached: set<string>): Tier {
    if changes == [] then t
    else ChangeTier(Batched(t, kind, changes[..|changes| - 1], scope, cached), kind, changes[|changes| - 1], scope, cached, true)
  }

  lemma {:induction false} CanInvalidate(t: Tier, kind: string, changes: seq<Ref>, scope: string, cached: set<string>)
    requires Past(t, kind) && (kind == LOCAL || kind == SHARED)
    ensures Invalidated(t, Batched(t, kind, changes, scope, cached), kind, AsSet(changes), scope, cached)
  {
    if changes != [] {
      var n := |changes| - 1;
      CanInvalidate(t, kind, changes[..n], scope, cached);
      ChangeOne(t, Batched(t, kind, changes[..n], scope, cached), kind, AsSet(changes[..n]), changes[n], scope, cached, true);
      assert AsSet(changes) == AsSet(changes[..n]) + {changes[n]};
    }
  }

  lemma FilledLocal(l1: Tier, l2: Tier, db: Database, a1: Tier, a2: Tier, b1: Tier, b2: Tier, want: set<Ref>, r: Ref, x: Ref)
    requires Filled(l1, l2, db, a1, a2, want) && Filled(a1, a2, db, b1, b2, {r}) && r !in want
    ensures View(b1, LOCAL, x) == if x in want + {r} then Answer(l1, l2, db, x) else View(l1, LOCAL, x)
  {
    assert View(a1, LOCAL, x) == if x in want then Answer(l1, l2, db, x) else View(l1, LOCAL, x);
    assert View(b1, LOCAL, x) == if x in {r} then Answer(a1, a2, db, x) else View(a1, LOCAL, x);
    if x == r { assert View(a2, SHARED, r) == View(l2, SHARED, r); }
  }

  lemma FilledShared(l1: Tier, l2: Tier, db: Database, a1: Tier, a2: Tier, b1: Tier, b2: Tier, want: set<Ref>, r: Ref, x: Ref)
    requires Filled(l1, l2, db, a1, a2, want) && Filled(a1, a2, db, b1, b2, {r}) && r !in want
    ensures View(b2, SHARED, x) == if x in want + {r} && Tiers(l1, l2, x).None? then DbRow(db, x) else View(l2, SHARED, x)
  {
    assert View(a2, SHARED, x) == if x in want && Tiers(l1, l2, x).None? then DbRow(db, x) else View(l2, SHARED, x);
    assert View(b2, SHARED, x) == if x in {r} && Tiers(a1, a2, x).None? then DbRow(db, x) else View(a2, SHARED, x);
    if x == r { assert View(a1, LOCAL, r) == View(l1, LOCAL, r); }
  }

  /** Reading one more row. */
  lemma FilledMore(l1: Tier, l2: Tier, db: Database, a1: Tier, a2: Tier, b1: Tier, b2: Tier, want: set<Ref>, r: Ref)
    requires Filled(l1, l2, db, a1, a2, want) && Filled(a1, a2, db, b1, b2, {r}) && r !in want
    ensures Filled(l1, l2, db, b1, b2, want + {r})
  {
    forall x
      ensures View(b1, LOCAL, x) == if x in want + {r} then Answer(l1, l2, db, x) else View(l1, LOCAL, x)
      ensures View(b2, SHARED, x) ==
              if x in want + {r} && Tiers(l1, l2, x).None? then DbRow(db, x) else View(l2, SHARED, x)
    {
      FilledLocal(l1, l2, db, a1, a2, b1, b2, want, r, x);
      FilledShared(l1, l2, db, a1, a2, b1, b2, want, r, x);
    }
  }

  lemma {:induction false} CanFill(l1: Tier, l2: Tier, db: Database, want: set<Ref>) returns (l1': Tier, l2': Tier)
    requires Past(l1, LOCAL) && Past(l2, SHARED)
    ensures Filled(l1, l2, db, l1', l2', want)
  {
    if want == {} {
      l1', l2' := l1, l2;
    } else {
      var r :| r in want;
      var a1, a2 := CanFill(l1, l2, db, want - {r});
      l1', l2' := a1, a2;
      if Tiers(a1, a2, r).Some? {
        HitFills(a1, a2, db, r);
        l1' := Put(a1, LOCAL, r, Tiers(a1, a2, r).value);
      } else {
        LoadFills(a1, a2, db, r);
        if r in db { l1', l2' := Put(a1, LOCAL, r, db[r]), Put(a2, SHARED, r, db[r]); }
      }
      FilledMore(l1, l2, db, a1, a2, l1', l2', want - {r}, r);
      assert want - {r} + {r} == want;
    }
  }

  /** Reads and commits can always happen, on any node of any coherent system. */
  lemma ReadHappens(cached: set<string>, s: Sys, n: nat, want: set<Ref>) returns (s': Sys)
    requires Coherent(cached, s) && n < |s.nodes| && forall r :: r in want ==> r.entity in cached
    ensures Next(cached, s, s', Read(n, want, s.db))
  {
    assert NodeCoherent(cached, s.db, s.log, s.nodes[n]);
    var l1, l2 := CanFill(s.nodes[n].l1, s.l2, s.db, want);
    s' := s.(l2 := l2, nodes := s.nodes[n := s.nodes[n].(l1 := l1)]);
  }

  lemma CommitHappens(cached: set<string>, s: Sys, n: nat, scope: string, changes: seq<Change>) returns (s': Sys)
    requires Coherent(cached, s) && n < |s.nodes|
    ensures Next(cached, s, s', Commit(n, scope, changes))
  {
    var x, refs := s.nodes[n], RefsOf(changes);
    assert NodeCoherent(cached, s.db, s.log, x);
    CanInvalidate(x.l1, LOCAL, refs, scope, cached);
    CanInvalidate(s.l2, SHARED, refs, scope, cached);
    s' := Sys(Apply(s.db, changes), s.log + EventsOf(changes, scope), Batched(s.l2, SHARED, refs, scope, cached),
              s.nodes[n := x.(l1 := Batched(x.l1, LOCAL, refs, scope, cached))]);
  }

  lemma TailHappens(cached: set<string>, s: Sys, n: nat) returns (s': Sys)
    requires Coherent(cached, s) && n < |s.nodes| && s.nodes[n].pos < |s.log|
    ensures Next(cached, s, s', Tail(n))
  {
    var x := s.nodes[n];
    assert NodeCoherent(cached, s.db, s.log, x);
    var e := s.log[x.pos];
    CanInvalidate(x.l1, LOCAL, [e.ref], e.scope, cached);
    assert AsSet([e.ref]) == {e.ref};
    s' := s.(nodes := s.nodes[n := Node(Batched(x.l1, LOCAL, [e.ref], e.scope, cached), x.pos + 1)]);
  }

  /** A flush can happen on any node; after it neither its own tier nor the shared one shows any
      row of that entity and tenant, and both show every other row as before. */
  lemma FlushForgets(cached: set<string>, s: Sys, n: nat, r: Ref)
    requires Coherent(cached, s) && n < |s.nodes|
    ensures exists s' :: Next(cached, s, s', Flush(n, r))
    ensures forall s', q | Next(cached, s, s', Flush(n, r)) ::
              && View(s'.nodes[n].l1, LOCAL, q) == (if Alike(q, r) then None else View(s.nodes[n].l1, LOCAL, q))
              && View(s'.l2, SHARED, q) == if Alike(q, r) then None else View(s.l2, SHARED, q)
  {
    assert NodeCoherent(cached, s.db, s.log, s.nodes[n]);
    var x := s.nodes[n].(l1 := Bump(s.nodes[n].l1, RowGen(LOCAL, r)));
    assert Next(cached, s, s.(l2 := Bump(s.l2, RowGen(SHARED, r)), nodes := s.nodes[n := x]), Flush(n, r));
    forall q
      ensures View(Bump(s.nodes[n].l1, RowGen(LOCAL, r)), LOCAL, q) == if Alike(q, r) then None else View(s.nodes[n].l1, LOCAL, q)
      ensures View(Bump(s.l2, RowGen(SHARED, r)), SHARED, q) == if Alike(q, r) then None else View(s.l2, SHARED, q)
    {
      KeysInjective(q, r);
      BumpView(s.nodes[n].l1, LOCAL, RowGen(LOCAL, r), q);
      BumpView(s.l2, SHARED, RowGen(SHARED, r), q);
    }
  }

  predicate Alike(q: Ref, r: Ref) {
    q.entity == r.entity && q.tenant == r.tenant
  }

  /** Either tier may lose any of its rows at any time. */
  lemma EvictionsHappen(cached: set<string>, s: Sys, n: nat, gone: set<Slot>)
    requires n < |s.nodes|
    ensures
      var l1 := s.nodes[n].l1.(rows := s.nodes[n].l1.rows - gone);
      Next(cached, s, s.(nodes := s.nodes[n := s.nodes[n].(l1 := l1)]), DropLocal(n))
    ensures Next(cached, s, s.(l2 := s.l2.(rows := s.l2.rows - gone)), DropShared)
  {
  }

  /** From any coherent state a node catches up by its own tailed events alone, as many as are
      ahead of it; then it reads what the database holds. */
  lemma {:induction false} CatchesUp(cached: set<string>, s: Sys, n: nat) returns (ss: seq<Sys>)
    requires Coherent(cached, s) && n < |s.nodes|
    ensures s.nodes[n].pos <= |s.log| && |ss| == |s.log| - s.nodes[n].pos + 1 && ss[0] == s
    ensures forall i :: 0 <= i < |ss| - 1 ==> Next(cached, ss[i], ss[i + 1], Tail(n))
    ensures
      var s' := ss[|ss| - 1];
      && s'.db == s.db && s'.log == s.log && n < |s'.nodes| && s'.nodes[n].pos == |s'.log|
      && forall r :: Answer(s'.nodes[n].l1, s'.l2, s'.db, r) == DbRow(s.db, r)
    decreases |s.log| - s.nodes[n].pos
  {
    assert NodeCoherent(cached, s.db, s.log, s.nodes[n]);
    if s.nodes[n].pos == |s.log| {
      ss := [s];
      ReadsAreFresh(cached, s, n, "", "", []);
    } else {
      var s1 := TailHappens(cached, s, n);
      TailKeeps(cached, s, s1, Tail(n));
      var rest := CatchesUp(cached, s1, n);
      ss := [s] + rest;
    }
  }

  // ---- a load and a store that are not one step ----

  /** The last of the changes to `r`. */
  function LastChange(changes: seq<Change>, r: Ref): Option<Change> {
    if changes == [] then None
    else if changes[|changes| - 1].ref == r then Some(changes[|changes| - 1])
    else LastChange(changes[..|changes| - 1], r)
  }

  lemma {:induction false} LastChangeDecides(db: Database, changes: seq<Change>, r: Ref)
    ensures DbRow(Apply(db, changes), r) ==
            if LastChange(changes, r).Some? then LastChange(changes, r).value.row else DbRow(db, r)
  {
    if changes != [] { LastChangeDecides(db, changes[..|changes| - 1], r); }
  }

  /** All changes committed by some steps, in order. */
  function Committed(labels: seq<Label>): seq<Change> {
    if labels == [] then [] else
      Committed(labels[..|labels| - 1]) + ChangesOf(labels[|labels| - 1])
  }

  lemma {:induction false} ApplyConcat(db: Database, c: seq<Change>, d: seq<Change>)
    ensures Apply(db, c + d) == Apply(Apply(db, c), d)
  {
    if d == [] {
      assert c + d == c;
    } else {
      assert (c + d)[..|c + d| - 1] == c + d[..|d| - 1];
      ApplyConcat(db, c, d[..|d| - 1]);
    }
  }

  function ChangesOf(a: Label): seq<Change> {
    if a.Commit? then a.changes else []
  }

  lemma DatabaseStep(cached: set<string>, s: Sys, s': Sys, a: Label)
    requires Next(cached, s, s', a)
    ensures s'.db == Apply(s.db, ChangesOf(a))
  {
  }

  lemma CommittedSnoc(labels: seq<Label>, a: Label)
    ensures Committed(labels + [a]) == Committed(labels) + ChangesOf(a)
  {
    assert (labels + [a])[..|labels|] == labels;
  }

  /** The database moves only by the commits of a run. */
  lemma {:induction false} DatabaseAlong(cached: set<string>, states: seq<Sys>, labels: seq<Label>, i: nat, j: nat)
    requires Run(cached, states, labels) && i <= j < |states|
    ensures states[j].db == Apply(states[i].db, Committed(labels[i..j]))
  {
    if i < j {
      DatabaseAlong(cached, states, labels, i, j - 1);
      DatabaseStep(cached, states[j - 1], states[j], labels[j - 1]);
      assert labels[i..j] == labels[i..j - 1] + [labels[j - 1]];
      CommittedSnoc(labels[i..j - 1], labels[j - 1]);
      ApplyConcat(states[i].db, Committed(labels[i..j - 1]), ChangesOf(labels[j - 1]));
    }
  }

  /** The state after node n stores `v` for `r` in both tiers. */
  function Fill(s: Sys, n: nat, r: Ref, v: Row): Sys
    requires n < |s.nodes|
  {
    s.(l2 := Put(s.l2, SHARED, r, v), nodes := s.nodes[n := s.nodes[n].(l1 := Put(s.nodes[n].l1, LOCAL, r, v))])
  }

  lemma FillCoherent(cached: set<string>, s: Sys, n: nat, r: Ref, v: Row)
    requires Coherent(cached, s) && n < |s.nodes| && r.entity in cached
    ensures Coherent(cached, Fill(s, n, r, v)) <==> DbRow(s.db, r) == Some(v)
  {
    assert NodeCoherent(cached, s.db, s.log, s.nodes[n]);
    PutView(s.l2, SHARED, r, v);
    PutView(s.nodes[n].l1, LOCAL, r, v);
  }

  /** A row loaded at step i of a run and stored at step j keeps the tiers coherent exactly when
      no commit in between changed the row, or the last one that did wrote the loaded value. */
  lemma LateFill(cached: set<string>, states: seq<Sys>, labels: seq<Label>, i: nat, j: nat, n: nat, r: Ref)
    requires Run(cached, states, labels) && i <= j < |states| && n < |states[j].nodes|
    requires r.entity in cached && r in states[i].db
    ensures
      var v, last := states[i].db[r], LastChange(Committed(labels[i..j]), r);
      Coherent(cached, Fill(states[j], n, r, v)) <==> last.None? || last.value.row == Some(v)
  {
    EveryRunCoherent(cached, states, labels, j);
    DatabaseAlong(cached, states, labels, i, j);
    LastChangeDecides(states[i].db, Committed(labels[i..j]), r);
    FillCoherent(cached, states[j], n, r, states[i].db[r]);
  }
}
