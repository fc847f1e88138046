/** Reconciling a process's registry with the persisted descriptors, and the store's
    revision rule. */
module DynamicSync {
  import opened DynamicCodec
  import opened Wrappers

  /** A persisted row; `body` is None when its bytes do not parse. */
  datatype Record = Record(body: Option<Persisted>, revision: int)

  type Store = map<string, Record>

  /** What the process holds: registered specs, and the revision of each name it loaded or
      persisted itself. Names registered in code are in `reg` but not in `loaded`. */
  datatype Process = Process(reg: map<string, Spec>, loaded: map<string, int>)

  /** Contracts of code outside the model: which specs the registry's validation accepts
      and which tables can be ensured. */
  datatype World = World(valid: Spec -> bool, ensured: Spec -> bool)

  datatype Outcome = Skipped | InCode | Added | Updated | Removed | Unchanged

  // ---- the store ----

  /** Saving moves the revision only when the stored spec changes. */
  function Saved(store: Store, name: string, p: Persisted): (r: (Store, int))
    ensures name in r.0 && r.0[name].body == Some(p) && r.0[name].revision == r.1
    ensures forall n :: n != name ==> (n in r.0 <==> n in store) && (n in store ==> r.0[n] == store[n])
    ensures name in store ==> (r.1 == store[name].revision <==> store[name].body == Some(p))
    ensures name !in store ==> r.1 == 1
  {
    if name !in store then (store[name := Record(Some(p), 1)], 1)
    else if store[name].body == Some(p) then (store, store[name].revision)
    else (store[name := Record(Some(p), store[name].revision + 1)], store[name].revision + 1)
  }

  // ---- the registry ----

  function Lookup<V>(m: map<string, V>, name: string): Option<V> {
    if name in m then Some(m[name]) else None
  }

  /** Entries are held under their own names, and every dynamic one has passed validation. */
  ghost predicate Registered(w: World, reg: map<string, Spec>) {
    forall n :: n in reg ==> reg[n].name == n && (reg[n].schema.Some? ==> w.valid(reg[n]))
  }

  /** Replace takes a valid dynamic spec for a registered dynamic entry. */
  predicate Replaceable(w: World, reg: map<string, Spec>, s: Spec) {
    w.valid(s) && s.schema.Some? && s.name in reg && reg[s.name].schema.Some?
  }

  function Replaced(w: World, reg: map<string, Spec>, s: Spec): map<string, Spec> {
    if Replaceable(w, reg, s) then reg[s.name := s] else reg
  }

  /** Putting the old spec back undoes a replacement exactly when the old spec validates, or
      nothing was replaced. */
  lemma ReplaceUndoes(w: World, reg: map<string, Spec>, next: Spec)
    requires next.name in reg && reg[next.name].name == next.name && Replaceable(w, reg, next)
    ensures
      var prev := reg[next.name];
      Replaced(w, Replaced(w, reg, next), prev) == reg <==> w.valid(prev) || next == prev
  {
    var n, prev := next.name, reg[next.name];
    assert reg[n := next][n := prev] == reg;
    if next != prev { assert reg[n := next][n] != reg[n]; }
  }

  // ---- one row ----

  function DecodeRecord(name: string, rec: Record): Option<Spec> {
    if rec.body.None? || Decode(rec.body.value).None? || Decode(rec.body.value).value.name != name then None
    else Decode(rec.body.value)
  }

  function WithLocal(s: Spec, prev: Spec): Spec {
    s.(local := prev.local)
  }

  /** The replacement that validates: with the app's in-process fields, else bare. */
  function Replacement(w: World, s: Spec, prev: Spec): Option<Spec> {
    if prev.schema.None? then None
    else if w.valid(WithLocal(s, prev)) then Some(WithLocal(s, prev))
    else if w.valid(s) then Some(s)
    else None
  }

  type Effect = (Option<Spec>, Option<int>, Outcome)

  /** What the sync of a decoded row should leave behind; `same` says that the current entry
      already encodes like it. */
  function RowEffect(w: World, s: Option<Spec>, revision: int, same: bool, cur: Option<Spec>, known: Option<int>): Effect {
    if s.None? then (cur, known, Skipped)
    else if cur.Some? && known.None? then (cur, known, InCode)
    else if cur.None? then
      if !w.valid(s.value) then (cur, known, Skipped)
      else if !w.ensured(s.value) then (None, None, Skipped)
      else (Some(s.value), Some(revision), Added)
    else if revision != known.value || !same then
      var next := Replacement(w, s.value, cur.value);
      if next.None? || !w.ensured(next.value) then (cur, known, Skipped)
      else (next, Some(revision), Updated)
    else (cur, known, Unchanged)
  }

  /** Whether an entry encodes like a decoded row. */
  predicate Same(s: Option<Spec>, cur: Option<Spec>) {
    s.Some? && cur.Some? && SameEncoding(cur.value, s.value)
  }

  function SyncRow(w: World, name: string, rec: Record, cur: Option<Spec>, known: Option<int>): Effect {
    var s := DecodeRecord(name, rec);
    RowEffect(w, s, rec.revision, Same(s, cur), cur, known)
  }

  /** A loaded name without a row goes; a modelled type of that name would stay. */
  function SyncMissing(cur: Option<Spec>, known: Option<int>): Effect {
    if known.None? then (cur, known, Unchanged)
    else (if cur.Some? && cur.value.schema.Some? then None else cur, None, Removed)
  }

  /** What a whole sync does to a name. */
  function SyncName(w: World, store: Store, p: Process, name: string): Effect {
    var cur, known := Lookup(p.reg, name), Lookup(p.loaded, name);
    if name in store then SyncRow(w, name, store[name], cur, known) else SyncMissing(cur, known)
  }

  predicate IsChange(o: Outcome) {
    o.Added? || o.Updated? || o.Removed?
  }

  /** The process after a sync, name by name, and the names reported as changed. */
  ghost predicate Synced(w: World, store: Store, p: Process, p': Process, changed: set<string>) {
    && (forall n :: Lookup(p'.reg, n) == SyncName(w, store, p, n).0)
    && (forall n :: Lookup(p'.loaded, n) == SyncName(w, store, p, n).1)
    && (forall n :: n in changed <==> IsChange(SyncName(w, store, p, n).2))
  }

  /** Only `name` may differ. */
  ghost predicate OthersSame<V(!new)>(m: map<string, V>, m': map<string, V>, name: string) {
    forall n :: n != name ==> Lookup(m', n) == Lookup(m, n)
  }

  class Registry {
    var reg: map<string, Spec>
    var loaded: map<string, int>

    ghost function State(): Process
      reads this
    {
      Process(reg, loaded)
    }

    constructor (ghost w: World, code: map<string, Spec>)
      requires Registered(w, code)
      ensures State() == Process(code, map[]) && Registered(w, reg)
    {
      reg, loaded := code, map[];
    }

    // The registry's own operations.

    method Register(w: World, s: Spec) returns (ok: bool)
      requires Registered(w, reg)
      modifies this`reg
      ensures ok <==> w.valid(s) && s.name !in old(reg)
      ensures reg == if ok then old(reg)[s.name := s] else old(reg)
      ensures Registered(w, reg)
    {
      if !w.valid(s) || s.name in reg { return false; }
      reg := reg[s.name := s];
      return true;
    }

    method Replace(w: World, s: Spec) returns (ok: bool)
      requires Registered(w, reg)
      modifies this`reg
      ensures ok <==> Replaceable(w, old(reg), s)
      ensures reg == Replaced(w, old(reg), s) && Registered(w, reg)
    {
      if !w.valid(s) || s.schema.None? { return false; }
      if s.name !in reg || reg[s.name].schema.None? { return false; }
      reg := reg[s.name := s];
      return true;
    }

    method Unregister(ghost w: World, name: string) returns (ok: bool)
      requires Registered(w, reg)
      modifies this`reg
      ensures ok <==> name in old(reg) && old(reg)[name].schema.Some?
      ensures reg == (if ok then old(reg) - {name} else old(reg)) && Registered(w, reg)
    {
      if name !in reg || reg[name].schema.None? { return false; }
      reg := reg - {name};
      return true;
    }

    /** A row whose name nobody registered: register, ensure its table, or take it back. */
    method AddRow(w: World, s: Spec, revision: int) returns (o: Outcome)
      requires Registered(w, reg) && s.name !in reg && s.schema.Some?
      modifies this
      ensures Registered(w, reg)
      ensures (Lookup(reg, s.name), Lookup(loaded, s.name), o) ==
              RowEffect(w, Some(s), revision, false, None, old(Lookup(loaded, s.name)))
      ensures OthersSame(old(reg), reg, s.name) && OthersSame(old(loaded), loaded, s.name)
      ensures if Usable(w, s) then o == Added && reg == old(reg)[s.name := s] && loaded == old(loaded)[s.name := revision]
              else o == Skipped && reg == old(reg)
    {
      var ok := Register(w, s);
      if !ok { return Skipped; }
      if !w.ensured(s) {
        var undone := Unregister(w, s.name);
        loaded := loaded - {s.name};
        return Skipped;
      }
      loaded := loaded[s.name := revision];
      return Added;
    }

    /** A loaded row that changed: replace with the in-process fields, else bare, ensure the
        table, or put the old spec back. */
    method UpdateRow(w: World, s: Spec, revision: int, ghost same: bool) returns (o: Outcome)
      requires Registered(w, reg) && s.name in reg && s.name in loaded && s.schema.Some?
      requires revision != loaded[s.name] || !same
      modifies this
      ensures Registered(w, reg)
      ensures (Lookup(reg, s.name), Lookup(loaded, s.name), o) ==
              RowEffect(w, Some(s), revision, same, old(Lookup(reg, s.name)), old(Lookup(loaded, s.name)))
      ensures OthersSame(old(reg), reg, s.name) && OthersSame(old(loaded), loaded, s.name)
      ensures
        var next := Preferred(w, s, old(reg)[s.name]);
        if old(reg)[s.name].schema.Some? && Usable(w, next)
        then o == Updated && reg == old(reg)[s.name := next] && loaded == old(loaded)[s.name := revision]
        else o == Skipped && reg == old(reg) && loaded == old(loaded)
    {
      var prev := reg[s.name];
      var next := WithLocal(s, prev);
      var ok := Replace(w, next);
      if !ok {
        next := s;
        ok := Replace(w, next);
        if !ok { return Skipped; }
      }
      if !w.ensured(next) {
        ReplaceUndoes(w, old(reg), next);
        var undone := Replace(w, prev);
        return Skipped;
      }
      loaded := loaded[s.name := revision];
      return Updated;
    }

    /** One round of the loop over the rows. A failed row leaves its entry as it was, through
        whatever was registered, replaced and rolled back; a type registered in code is left
        alone; otherwise the entry holds the row's spec at the row's revision. */
    method SyncOne(w: World, name: string, rec: Record) returns (o: Outcome)
      requires Registered(w, reg)
      modifies this
      ensures Registered(w, reg)
      ensures (Lookup(reg, name), Lookup(loaded, name), o) ==
              SyncRow(w, name, rec, old(Lookup(reg, name)), old(Lookup(loaded, name)))
      ensures OthersSame(old(reg), reg, name) && OthersSame(old(loaded), loaded, name)
      ensures o.Skipped? || o.InCode? ==> reg == old(reg)
      ensures o.Added? || o.Updated? || o.Unchanged? ==>
                && name in reg && Loads(name, rec, reg[name])
                && name in loaded && loaded[name] == rec.revision
    {
      GoodRow(w, name, rec, Lookup(reg, name), Lookup(loaded, name));
      var s := DecodeRecord(name, rec);
      if s.None? { return Skipped; }
      DecodedSpec(name, rec);
      if name in reg && name !in loaded { return InCode; }
      var same := Same(s, Lookup(reg, name));
      if name !in reg {
        o := AddRow(w, s.value, rec.revision);
      } else if rec.revision != loaded[name] || !same {
        o := UpdateRow(w, s.value, rec.revision, same);
      } else {
        o := Unchanged;
      }
    }

    /** The first loop: every row in turn. `f` is what the sync should do to each name. */
    method ApplyRows(w: World, store: Store, ghost f: string -> Effect) returns (changed: set<string>, skipped: set<string>)
      requires Registered(w, reg) && forall n :: Agrees(w, store, State(), f, n)
      modifies this
      ensures Registered(w, reg) && AppliedTo(store.Keys, old(State()), State(), f)
      ensures forall n :: n in changed <==> n in store && IsChange(f(n).2)
      ensures forall n :: n in skipped <==> n in store && f(n).2.Skipped?
    {
      ghost var p := State();
      changed, skipped := {}, {};
      var left := store.Keys;
      while left != {}
        invariant left <= store.Keys && Registered(w, reg)
        invariant AppliedTo(store.Keys - left, p, State(), f)
        invariant forall n :: n in changed <==> n in store.Keys - left && IsChange(f(n).2)
        invariant forall n :: n in skipped <==> n in store.Keys - left && f(n).2.Skipped?
        decreases left
      {
        var name :| name in left;
        ghost var q := State();
        var o := SyncOne(w, name, store[name]);
        AppliedOneMore(w, store, store.Keys - left, p, q, State(), f, name, o);
        assert store.Keys - (left - {name}) == store.Keys - left + {name};
        left := left - {name};
        if IsChange(o) { changed := changed + {name}; }
        if o.Skipped? { skipped := skipped + {name}; }
      }
    }

    /** The second loop: loaded names without a row. */
    method RemoveMissing(ghost w: World, store: Store) returns (removed: set<string>)
      requires Registered(w, reg)
      modifies this
      ensures Registered(w, reg)
      ensures removed == old(loaded).Keys - store.Keys
      ensures loaded == old(loaded) - removed
      ensures forall n :: Lookup(reg, n) ==
                if n in removed && n in old(reg) && old(reg)[n].schema.Some? then None else Lookup(old(reg), n)
    {
      ghost var reg0 := reg;
      removed := loaded.Keys - store.Keys;
      var left := removed;
      while left != {}
        invariant left <= removed && Registered(w, reg)
        invariant loaded == old(loaded) - (removed - left)
        invariant forall n :: Lookup(reg, n) ==
                    if n in removed && n !in left && n in reg0 && reg0[n].schema.Some? then None else Lookup(reg0, n)
        decreases left
      {
        var name :| name in left;
        left := left - {name};
        assert Lookup(reg, name) == Lookup(reg0, name);
        if name in reg && reg[name].schema.Some? { var gone := Unregister(w, name); }
        loaded := loaded - {name};
      }
    }

    /** syncPersistedDynamic. Types registered in code stay as they are; rows that fail leave
        their entries as they were. */
    method Sync(w: World, store: Store) returns (changed: set<string>, skipped: set<string>)
      requires Registered(w, reg)
      modifies this
      ensures Registered(w, reg) && Synced(w, store, old(State()), State(), changed)
      ensures forall n :: n in skipped <==> n in store && SyncName(w, store, old(State()), n).2.Skipped?
      ensures Reconciled(w, store, old(State()), State(), changed, skipped)
      ensures forall n :: n in old(reg) && n !in old(loaded) ==>
                Lookup(reg, n) == Some(old(reg)[n]) && n !in loaded && n !in changed
    {
      ghost var p := State();
      ghost var f := n => SyncName(w, store, p, n);
      assert forall n :: Agrees(w, store, p, f, n);
      changed, skipped := ApplyRows(w, store, f);
      ghost var p1, changed1 := State(), changed;
      var removed := RemoveMissing(w, store);
      changed := changed + removed;
      BothLoops(w, store, p, f, p1, changed1, State(), removed);
      FailuresAndCodeStand(w, store, p, State(), changed);
      SyncReconciles(w, store, p, State(), changed, skipped);
    }
  }

  // ---- the sync, said without the function that specifies it ----

  /** The row's bytes are a descriptor of that name. */
  ghost predicate Readable(name: string, rec: Record) {
    rec.body.Some? && Decode(rec.body.value).Some? && Decode(rec.body.value).value.name == name
  }

  /** The row is news to an instance that loaded the name: another revision, or an entry that
      encodes otherwise. */
  ghost predicate IsNews(rec: Record, e: Spec, known: int)
    requires rec.body.Some? && Decode(rec.body.value).Some?
  {
    rec.revision != known || !SameEncoding(e, Decode(rec.body.value).value)
  }

  /** The spec a changed row leads to: with the entry's in-process fields while that validates. */
  ghost function Preferred(w: World, s: Spec, e: Spec): Spec {
    if w.valid(s.(local := e.local)) then s.(local := e.local) else s
  }

  /** The row can be used: some variant of its spec validates and the table can be ensured. */
  ghost predicate Usable(w: World, s: Spec) {
    w.valid(s) && w.ensured(s)
  }

  /** Everything a sync does to one stored name. */
  ghost predicate RowReconciled(w: World, n: string, rec: Record, p: Process, p': Process, changed: bool, skipped: bool) {
    if !Readable(n, rec) then skipped && !changed && Lookup(p'.reg, n) == Lookup(p.reg, n)
    else
      var s := Decode(rec.body.value).value;
      if n in p.reg && n !in p.loaded then
        // registered in code
        !skipped && !changed && Lookup(p'.reg, n) == Some(p.reg[n]) && n !in p'.loaded
      else if n !in p.reg then
        if Usable(w, s)
        then changed && !skipped && Lookup(p'.reg, n) == Some(s) && Lookup(p'.loaded, n) == Some(rec.revision)
        else skipped && !changed && n !in p'.reg
      else if IsNews(rec, p.reg[n], p.loaded[n]) then
        var next := Preferred(w, s, p.reg[n]);
        if p.reg[n].schema.Some? && Usable(w, next)
        then changed && !skipped && Lookup(p'.reg, n) == Some(next) && Lookup(p'.loaded, n) == Some(rec.revision)
        else skipped && !changed && Lookup(p'.reg, n) == Some(p.reg[n]) && Lookup(p'.loaded, n) == Some(p.loaded[n])
      else
        !skipped && !changed && Lookup(p'.reg, n) == Some(p.reg[n]) && Lookup(p'.loaded, n) == Some(p.loaded[n])
  }

  /** ... and to a name without a row: loaded dynamic types go, everything else stays. */
  ghost predicate GoneReconciled(n: string, p: Process, p': Process, changed: bool, skipped: bool) {
    && !skipped && (changed <==> n in p.loaded) && n !in p'.loaded
    && Lookup(p'.reg, n) == if n in p.loaded && n in p.reg && p.reg[n].schema.Some? then None else Lookup(p.reg, n)
  }

  ghost predicate Reconciled(w: World, store: Store, p: Process, p': Process, changed: set<string>, skipped: set<string>) {
    && (forall n :: n in store ==> RowReconciled(w, n, store[n], p, p', n in changed, n in skipped))
    && (forall n :: n !in store ==> GoneReconciled(n, p, p', n in changed, n in skipped))
  }

  lemma RowReconciles(w: World, n: string, rec: Record, p: Process, p': Process, changed: bool, skipped: bool)
    requires
      var r := SyncRow(w, n, rec, Lookup(p.reg, n), Lookup(p.loaded, n));
      && Lookup(p'.reg, n) == r.0 && Lookup(p'.loaded, n) == r.1
      && (changed <==> IsChange(r.2)) && (skipped <==> r.2.Skipped?)
    ensures RowReconciled(w, n, rec, p, p', changed, skipped)
  {
  }

  lemma SyncReconciles(w: World, store: Store, p: Process, p': Process, changed: set<string>, skipped: set<string>)
    requires Synced(w, store, p, p', changed)
    requires forall n :: n in skipped <==> n in store && SyncName(w, store, p, n).2.Skipped?
    ensures Reconciled(w, store, p, p', changed, skipped)
  {
    forall n ensures if n in store then RowReconciled(w, n, store[n], p, p', n in changed, n in skipped)
                     else GoneReconciled(n, p, p', n in changed, n in skipped)
    {
      assert Lookup(p'.reg, n) == SyncName(w, store, p, n).0 && Lookup(p'.loaded, n) == SyncName(w, store, p, n).1;
      if n in store { RowReconciles(w, n, store[n], p, p', n in changed, n in skipped); }
    }
  }

  ghost predicate Agrees(w: World, store: Store, p: Process, f: string -> Effect, n: string) {
    f(n) == SyncName(w, store, p, n)
  }

  /** `q` is `p` with the effect of `f` on the names in `done`. */
  ghost predicate AppliedTo(done: set<string>, p: Process, q: Process, f: string -> Effect) {
    && (forall n :: Lookup(q.reg, n) == if n in done then f(n).0 else Lookup(p.reg, n))
    && (forall n :: Lookup(q.loaded, n) == if n in done then f(n).1 else Lookup(p.loaded, n))
  }

  lemma AppliedOneMore(w: World, store: Store, done: set<string>, p: Process, q: Process, q': Process,
                       f: string -> Effect, name: string, o: Outcome)
    requires AppliedTo(done, p, q, f) && name in store && name !in done && Agrees(w, store, p, f, name)
    requires OthersSame(q.reg, q'.reg, name) && OthersSame(q.loaded, q'.loaded, name)
    requires (Lookup(q'.reg, name), Lookup(q'.loaded, name), o) ==
             SyncRow(w, name, store[name], Lookup(q.reg, name), Lookup(q.loaded, name))
    ensures AppliedTo(done + {name}, p, q', f) && o == f(name).2
  {
    assert Lookup(q.reg, name) == Lookup(p.reg, name) && Lookup(q.loaded, name) == Lookup(p.loaded, name);
  }

  /** The two loops together do to each name what the sync should do to it. */
  lemma BothLoops(w: World, store: Store, p: Process, f: string -> Effect,
                  p1: Process, changed1: set<string>, p2: Process, removed: set<string>)
    requires forall n :: Agrees(w, store, p, f, n)
    requires AppliedTo(store.Keys, p, p1, f)
    requires forall n :: n in changed1 <==> n in store && IsChange(f(n).2)
    requires removed == p1.loaded.Keys - store.Keys && p2.loaded == p1.loaded - removed
    requires forall n :: Lookup(p2.reg, n) ==
               if n in removed && n in p1.reg && p1.reg[n].schema.Some? then None else Lookup(p1.reg, n)
    ensures Synced(w, store, p, p2, changed1 + removed)
  {
    forall n
      ensures Lookup(p2.reg, n) == SyncName(w, store, p, n).0 && Lookup(p2.loaded, n) == SyncName(w, store, p, n).1
      ensures n in changed1 + removed <==> IsChange(SyncName(w, store, p, n).2)
    {
      assert Agrees(w, store, p, f, n);
      assert Lookup(p1.reg, n) == if n in store then f(n).0 else Lookup(p.reg, n);
      assert Lookup(p1.loaded, n) == if n in store then f(n).1 else Lookup(p.loaded, n);
      if n !in store { assert SyncName(w, store, p, n) == SyncMissing(Lookup(p.reg, n), Lookup(p.loaded, n)); }
    }
  }

  // ---- what a sync guarantees ----

  lemma DecodedSpec(name: string, rec: Record)
    requires DecodeRecord(name, rec).Some?
    ensures DecodeRecord(name, rec).value.name == name && DecodeRecord(name, rec).value.schema.Some?
  {
  }

  /** A decoded spec encodes, in-process fields or not. */
  lemma DecodedEncodes(name: string, rec: Record, x: Spec)
    requires DecodeRecord(name, rec).Some?
    ensures
      var s := DecodeRecord(name, rec).value;
      SameEncoding(s, s) && SameEncoding(WithLocal(s, x), s)
  {
    PersistedPieces(rec.body.value);
    var s := DecodeRecord(name, rec).value;
    assert Pack(WithLocal(s, x)) == Pack(s);
  }

  /** The entry a stored row leads to. */
  ghost predicate Loads(name: string, rec: Record, e: Spec) {
    Same(DecodeRecord(name, rec), Some(e))
  }

  lemma EffectCases(w: World, s: Option<Spec>, revision: int, same: bool, cur: Option<Spec>, known: Option<int>)
    ensures
      var r := RowEffect(w, s, revision, same, cur, known);
      r.2.Added? || r.2.Updated? || r.2.Unchanged? ==>
        && s.Some? && r.0.Some? && r.1 == Some(revision)
        && (|| r.0 == s || (same && r.0 == cur)
            || (cur.Some? && r.0.value == WithLocal(s.value, cur.value)))
  {
  }

  /** An added, updated or unchanged name holds its row's spec at the row's revision. */
  lemma GoodRow(w: World, name: string, rec: Record, cur: Option<Spec>, known: Option<int>)
    ensures
      var r := SyncRow(w, name, rec, cur, known);
      r.2.Added? || r.2.Updated? || r.2.Unchanged? ==>
        r.0.Some? && Loads(name, rec, r.0.value) && r.1 == Some(rec.revision)
  {
    var s := DecodeRecord(name, rec);
    EffectCases(w, s, rec.revision, Same(s, cur), cur, known);
    if s.Some? { DecodedEncodes(name, rec, if cur.Some? then cur.value else s.value); }
  }

  /** A failed row leaves its registry entry as it was, and types registered in code never
      change, whatever the store holds. */
  lemma FailuresAndCodeStand(w: World, store: Store, p: Process, p': Process, changed: set<string>)
    requires Synced(w, store, p, p', changed)
    ensures forall n :: SyncName(w, store, p, n).2.Skipped? ==> Lookup(p'.reg, n) == Lookup(p.reg, n)
    ensures forall n :: n in p.reg && n !in p.loaded ==>
                          Lookup(p'.reg, n) == Some(p.reg[n]) && n !in p'.loaded && n !in changed
  {
    forall n | n in p.reg && n !in p.loaded
      ensures Lookup(p'.reg, n) == Some(p.reg[n]) && n !in p'.loaded && n !in changed
    {
      assert Lookup(p'.loaded, n) == SyncName(w, store, p, n).1;
    }
  }

  /** After a sync without skipped rows, each stored name not registered in code has an
      entry that encodes to its row, at the recorded revision, however the revision moved;
      loaded names without a row are gone. */
  lemma CleanSyncMatchesStore(w: World, store: Store, p: Process, p': Process, changed: set<string>)
    requires Synced(w, store, p, p', changed)
    requires forall n :: n in store ==> !SyncName(w, store, p, n).2.Skipped?
    ensures forall n :: n in store && (n in p.reg ==> n in p.loaded) ==>
              n in p'.reg && Loads(n, store[n], p'.reg[n]) && n in p'.loaded && p'.loaded[n] == store[n].revision
    ensures forall n :: n !in store && n in p.loaded ==>
              n !in p'.loaded && (n in p'.reg ==> n in p.reg && p.reg[n].schema.None?)
  {
    forall n | n in store && (n in p.reg ==> n in p.loaded)
      ensures n in p'.reg && Loads(n, store[n], p'.reg[n]) && n in p'.loaded && p'.loaded[n] == store[n].revision
    {
      GoodRow(w, n, store[n], Lookup(p.reg, n), Lookup(p.loaded, n));
      assert Lookup(p'.reg, n) == SyncName(w, store, p, n).0 && Lookup(p'.loaded, n) == SyncName(w, store, p, n).1;
    }
    forall n | n !in store && n in p.loaded
      ensures n !in p'.loaded && (n in p'.reg ==> n in p.reg && p.reg[n].schema.None?)
    {
      assert Lookup(p'.reg, n) == SyncName(w, store, p, n).0 && Lookup(p'.loaded, n) == SyncName(w, store, p, n).1;
    }
  }

  /** Instances converge: two that each sync the same store without skipped rows, whatever they
      held before and whatever each can validate or ensure, hold every stored name that neither
      registers in code at the same revision and with the same encoding. */
  lemma InstancesConverge(w: World, w2: World, store: Store, p: Process, p': Process, changed: set<string>,
                          q: Process, q': Process, changed2: set<string>)
    requires Synced(w, store, p, p', changed) && Synced(w2, store, q, q', changed2)
    requires forall n :: n in store ==> !SyncName(w, store, p, n).2.Skipped? && !SyncName(w2, store, q, n).2.Skipped?
    ensures forall n :: n in store && (n in p.reg ==> n in p.loaded) && (n in q.reg ==> n in q.loaded) ==>
              && n in p'.reg && n in q'.reg && SameEncoding(p'.reg[n], q'.reg[n])
              && Lookup(p'.loaded, n) == Lookup(q'.loaded, n) == Some(store[n].revision)
  {
    CleanSyncMatchesStore(w, store, p, p', changed);
    CleanSyncMatchesStore(w2, store, q, q', changed2);
  }

  /** An entry loaded from a row encodes to that very row when the row's ttl fits. */
  lemma LoadedEncodesToRow(name: string, rec: Record, e: Spec)
    requires Loads(name, rec, e)
    ensures Encode(e) == rec.body <==> TtlFits(rec.body.value.cache)
  {
    RowRoundTrip(rec.body.value);
  }

  /** A row that did not fail is not touched again, whatever validates or can be ensured then. */
  lemma GoodRowTwice(w: World, w2: World, name: string, rec: Record, cur: Option<Spec>, known: Option<int>)
    ensures
      var r := SyncRow(w, name, rec, cur, known);
      var r2 := SyncRow(w2, name, rec, r.0, r.1);
      !r.2.Skipped? ==> r2.0 == r.0 && r2.1 == r.1 && !IsChange(r2.2)
  {
    GoodRow(w, name, rec, cur, known);
  }

  lemma FailedRowTwice(w: World, s: Option<Spec>, revision: int, same: bool, cur: Option<Spec>, known: Option<int>)
    ensures
      var r := RowEffect(w, s, revision, same, cur, known);
      r.2.Skipped? ==> RowEffect(w, s, revision, same, r.0, r.1) == r
  {
  }

  lemma RowTwice(w: World, w2: World, name: string, rec: Record, cur: Option<Spec>, known: Option<int>)
    ensures
      var r := SyncRow(w, name, rec, cur, known);
      var r2 := SyncRow(w2, name, rec, r.0, r.1);
      !r.2.Skipped? || w2 == w ==> r2.0 == r.0 && r2.1 == r.1 && !IsChange(r2.2)
  {
    var s := DecodeRecord(name, rec);
    GoodRowTwice(w, w2, name, rec, cur, known);
    FailedRowTwice(w, s, rec.revision, Same(s, cur), cur, known);
    assert SyncRow(w, name, rec, cur, known).2.Skipped? ==> SyncRow(w, name, rec, cur, known).0 == cur;
  }

  lemma MissingTwice(cur: Option<Spec>, known: Option<int>)
    ensures
      var r := SyncMissing(cur, known);
      var r2 := SyncMissing(r.0, r.1);
      r2.0 == r.0 && r2.1 == r.1 && !IsChange(r2.2)
  {
  }

  lemma NameTwice(w: World, w2: World, store: Store, p: Process, p': Process, changed: set<string>, n: string)
    requires Synced(w, store, p, p', changed)
    ensures
      var r, r2 := SyncName(w, store, p, n), SyncName(w2, store, p', n);
      !r.2.Skipped? || w2 == w ==> r2.0 == r.0 && r2.1 == r.1 && !IsChange(r2.2)
  {
    var cur, known := Lookup(p.reg, n), Lookup(p.loaded, n);
    assert Lookup(p'.reg, n) == SyncName(w, store, p, n).0 && Lookup(p'.loaded, n) == SyncName(w, store, p, n).1;
    if n in store { RowTwice(w, w2, n, store[n], cur, known); } else { MissingTwice(cur, known); }
  }

  /** A second sync of an unchanged store touches only names whose row failed the first time,
      whatever has become valid or ensurable meanwhile; under the same outcomes it changes and
      reports nothing. */
  lemma SecondSyncIsQuiet(w: World, w2: World, store: Store, p: Process, p': Process, p2: Process,
                          changed: set<string>, changed2: set<string>)
    requires Synced(w, store, p, p', changed) && Synced(w2, store, p', p2, changed2)
    ensures forall n :: !SyncName(w, store, p, n).2.Skipped? ==>
              Lookup(p2.reg, n) == Lookup(p'.reg, n) && Lookup(p2.loaded, n) == Lookup(p'.loaded, n) && n !in changed2
    ensures w2 == w ==> p2 == p' && changed2 == {}
  {
    forall n
      ensures !SyncName(w, store, p, n).2.Skipped? || w2 == w ==>
                Lookup(p2.reg, n) == Lookup(p'.reg, n) && Lookup(p2.loaded, n) == Lookup(p'.loaded, n) && n !in changed2
    {
      assert Lookup(p'.reg, n) == SyncName(w, store, p, n).0 && Lookup(p'.loaded, n) == SyncName(w, store, p, n).1;
      assert Lookup(p2.reg, n) == SyncName(w2, store, p', n).0 && Lookup(p2.loaded, n) == SyncName(w2, store, p', n).1;
      NameTwice(w, w2, store, p, p', changed, n);
    }
    if w2 == w {
      LookupsDecide(p2.reg, p'.reg);
      LookupsDecide(p2.loaded, p'.loaded);
    }
  }

  /** A row that failed only because its table could not be ensured is added once it can. */
  lemma RetriedRowIsAdded(w: World, w2: World, name: string, rec: Record)
    requires DecodeRecord(name, rec).Some? && w2.valid(DecodeRecord(name, rec).value) && w2.ensured(DecodeRecord(name, rec).value)
    ensures
      var r := SyncRow(w, name, rec, None, None);
      r.2.Skipped? ==> SyncRow(w2, name, rec, r.0, r.1).2.Added?
  {
  }

  /** A row that was deleted and saved again is back at revision 1: an instance that held the
      same spec at revision 1 sees no change, whatever has happened to the table meanwhile. */
  lemma SavedAgainLooksUnchanged(w: World, store: Store, name: string, e: Spec)
    requires Named(e) && Encodable(e) && e.name == name
    ensures
      var rec := Saved(store - {name}, name, Encode(e).value).0[name];
      SyncRow(w, name, rec, Some(e), Some(1)) == (Some(e), Some(1), Unchanged)
  {
    SpecRoundTrip(e);
  }

  lemma LookupsDecide<V>(a: map<string, V>, b: map<string, V>)
    requires forall n :: Lookup(a, n) == Lookup(b, n)
    ensures a == b
  {
    forall n ensures (n in a <==> n in b) && (n in a ==> a[n] == b[n]) {
      assert Lookup(a, n) == Lookup(b, n);
    }
  }
}
