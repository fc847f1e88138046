/** Lifecycle steps of dynamic types on one writing instance, with a failure, lost reply or
    crash after any of them, and other instances that only sync: does every persisted
    descriptor name an existing table, and when does a sync bring a lost one back? */
module DynamicTables {
  import opened Wrappers

  /** A descriptor as it persists: its table, and the rest of its encoding. */
  datatype Desc = Desc(table: string, rest: string)

  datatype Row = Row(desc: Desc, revision: nat)

  type Rows = map<string, Row>

  /** One instance: what it registers at start, its registry, the revision of each name it
      loaded or persisted, and the rows the sync in progress has read. */
  datatype Memory = Memory(code: map<string, Desc>, reg: map<string, Desc>, loaded: map<string, nat>, view: Option<Rows>)

  function Fresh(code: map<string, Desc>): Memory {
    Memory(code, code, map[], None)
  }

  /** Where the writing instance is inside an operation. `prev` is what the name was
      registered with before, None for a define. */
  datatype Pc =
    | Idle
    | Ensure(name: string, desc: Desc, prev: Option<Desc>)
    | Column(name: string, desc: Desc)
    | Save(name: string, desc: Desc, define: bool)
    | DeleteRow(name: string, desc: Desc)
    | DropTable(name: string, desc: Desc, owned: bool)
    | Restore(name: string, desc: Desc)

  /** Tables and rows are shared and durable; `w` is the writer, with its `pc`. */
  datatype Sys = Sys(tables: set<string>, rows: Rows, w: Memory, pc: Pc, others: seq<Memory>)

  datatype Who = Writer | Other(i: nat)

  /** How the table statement of a sync ends: done, failed or not even valid, or done with an
      error all the same. */
  datatype Result = Done | Refused | Unsure

  datatype Label =
    | Define(name: string, desc: Desc)
    | Alter(name: string, desc: Desc)
    | AlterColumn(name: string, rest: string)
    | Drop(name: string)
    | Ok    // the statement takes effect and succeeds
    | Fail  // it has no effect and an error comes back
    | Lost  // it takes effect, but an error comes back all the same
    | Start(code: map<string, Desc>)
    | Crash(who: Who)
    | Begin(who: Who)  // a sync reads the rows
    | SyncRow(who: Who, name: string, res: Result)
    | SyncGone(who: Who, name: string)
    | End(who: Who)

  predicate Has(s: Sys, who: Who) {
    who.Other? ==> who.i < |s.others|
  }

  function Mem(s: Sys, who: Who): Memory
    requires Has(s, who)
  {
    match who case Writer => s.w case Other(i) => s.others[i]
  }

  function With(s: Sys, who: Who, m: Memory): Sys
    requires Has(s, who)
  {
    match who case Writer => s.(w := m) case Other(i) => s.(others := s.others[i := m])
  }

  /** An operation or a sync may start: the instance's lock is free. */
  predicate Free(s: Sys) {
    s.pc.Idle? && s.w.view.None?
  }

  /** A define comes after a sync, so a name with a row is registered or refused by then. */
  predicate Enabled(s: Sys, a: Label)
    decreases a.Lost?
  {
    match a
    case Define(name, _) => Free(s) && name !in s.w.reg && name !in s.rows
    case Alter(name, _) => Free(s) && name in s.w.reg
    case AlterColumn(name, _) => Free(s) && name in s.w.reg
    case Drop(name) => Free(s) && name in s.w.reg
    case Ok => !s.pc.Idle? && (s.pc.Column? ==> s.pc.desc.table in s.tables)
    case Fail => !s.pc.Idle?
    case Lost => Enabled(s, Ok)
    case Start(_) => true
    case Crash(who) => Has(s, who)
    case Begin(who) => Has(s, who) && Mem(s, who).view.None? && (who.Writer? ==> s.pc.Idle?)
    case SyncRow(who, name, _) => Has(s, who) && Mem(s, who).view.Some? && name in Mem(s, who).view.value
    case SyncGone(who, name) =>
      Has(s, who) && Mem(s, who).view.Some? && name !in Mem(s, who).view.value && name in Mem(s, who).loaded
    case End(who) => Has(s, who) && Mem(s, who).view.Some?
  }

  /** The revision starts at 1 and moves only when the stored descriptor changes. */
  function Saved(rows: Rows, name: string, d: Desc): Row {
    if name !in rows then Row(d, 1)
    else if rows[name].desc == d then rows[name]
    else Row(d, rows[name].revision + 1)
  }

  /** saveDynamicSpec: the row, and its revision in the writer's memory. */
  function SaveRow(s: Sys, name: string, d: Desc): Sys {
    var row := Saved(s.rows, name, d);
    s.(rows := s.rows[name := row], w := s.w.(loaded := s.w.loaded[name := row.revision]))
  }

  /** Only a name in `loaded` writes or deletes its row. */
  function Saving(m: Memory, name: string, d: Desc, define: bool): Pc {
    if define || name in m.loaded then Save(name, d, define) else Idle
  }

  function AfterOk(s: Sys): Sys
    requires Enabled(s, Ok)
  {
    match s.pc
    case Ensure(n, d, prev) => s.(tables := s.tables + {d.table}, pc := Saving(s.w, n, d, prev.None?))
    case Column(n, d) => s.(w := s.w.(reg := s.w.reg[n := d]), pc := Saving(s.w, n, d, false))
    case Save(n, d, _) => SaveRow(s, n, d).(pc := Idle)
    case DeleteRow(n, d) => s.(rows := s.rows - {n}, pc := DropTable(n, d, true))
    case DropTable(n, d, _) =>
      s.(tables := s.tables - {d.table}, w := s.w.(reg := s.w.reg - {n}, loaded := s.w.loaded - {n}), pc := Idle)
    case Restore(n, d) => SaveRow(s, n, d).(pc := Idle)
  }

  function AfterFail(s: Sys): Sys
    requires Enabled(s, Fail)
  {
    match s.pc
    case Ensure(n, _, prev) =>
      s.(w := s.w.(reg := if prev.Some? then s.w.reg[n := prev.value] else s.w.reg - {n}), pc := Idle)
    case Save(n, _, define) => s.(w := s.w.(reg := if define then s.w.reg - {n} else s.w.reg), pc := Idle)
    case DropTable(n, d, owned) => s.(pc := if owned then Restore(n, d) else Idle)
    case _ => s.(pc := Idle)
  }

  /** The tables and rows as after success, the writer's memory as after a failure. */
  function AfterLost(s: Sys): Sys
    requires Enabled(s, Ok)
  {
    AfterFail(s).(tables := AfterOk(s).tables, rows := AfterOk(s).rows)
  }

  /** A sync registers and ensures a row that is new to the instance, or that it loaded at
      another revision or with another encoding; it leaves every other row alone. */
  predicate Touches(m: Memory, name: string, row: Row) {
    name !in m.reg || (name in m.loaded && (m.loaded[name] != row.revision || m.reg[name] != row.desc))
  }

  function Synced(m: Memory, name: string, row: Row, res: Result): Memory {
    if !Touches(m, name, row) then m
    else if res.Done? then m.(reg := m.reg[name := row.desc], loaded := m.loaded[name := row.revision])
    else if name in m.reg then m
    else m.(loaded := m.loaded - {name})
  }

  function AfterSync(s: Sys, who: Who, name: string, row: Row, res: Result): Sys
    requires Has(s, who)
  {
    var m := Mem(s, who);
    With(s, who, Synced(m, name, row, res)).(
      tables := if Touches(m, name, row) && !res.Refused? then s.tables + {row.desc.table} else s.tables)
  }

  function After(s: Sys, a: Label): Sys
    requires Enabled(s, a)
  {
    match a
    case Define(n, d) => s.(w := s.w.(reg := s.w.reg[n := d]), pc := Ensure(n, d, None))
    case Alter(n, d) => s.(w := s.w.(reg := s.w.reg[n := d]), pc := Ensure(n, d, Some(s.w.reg[n])))
    case AlterColumn(n, rest) => s.(pc := Column(n, s.w.reg[n].(rest := rest)))
    case Drop(n) => s.(pc := if n in s.w.loaded then DeleteRow(n, s.w.reg[n]) else DropTable(n, s.w.reg[n], false))
    case Ok => AfterOk(s)
    case Fail => AfterFail(s)
    case Lost => AfterLost(s)
    case Start(code) => s.(others := s.others + [Fresh(code)])
    case Crash(who) =>
      var s1 := With(s, who, Fresh(Mem(s, who).code));
      if who.Writer? then s1.(pc := Idle) else s1
    case Begin(who) => With(s, who, Mem(s, who).(view := Some(s.rows)))
    case SyncRow(who, n, res) => AfterSync(s, who, n, Mem(s, who).view.value[n], res)
    case SyncGone(who, n) =>
      var m := Mem(s, who);
      With(s, who, m.(reg := m.reg - {n}, loaded := m.loaded - {n}))
    case End(who) => With(s, who, Mem(s, who).(view := None))
  }

  // ---- the invariant ----

  /** Every persisted descriptor names a table that exists. */
  ghost predicate RowsHaveTables(s: Sys) {
    forall n :: n in s.rows ==> s.rows[n].desc.table in s.tables
  }

  /** So do the writer's own entries, except one whose table is being ensured. */
  ghost predicate OwnedHaveTables(s: Sys) {
    && (forall n :: n in s.w.loaded ==> n in s.w.reg)
    && (forall n :: n in s.w.loaded && !(s.pc.Ensure? && s.pc.name == n) ==> s.w.reg[n].table in s.tables)
  }

  ghost predicate PcHolds(s: Sys) {
    match s.pc
    case Idle => true
    case Ensure(n, d, prev) =>
      && n in s.w.reg && s.w.reg[n] == d && s.w.view.None?
      && (prev.None? ==> n !in s.w.loaded && n !in s.rows)
      && (prev.Some? && n in s.w.loaded ==> prev.value.table in s.tables)
    case Column(n, d) => n in s.w.reg && s.w.reg[n].table == d.table && s.w.view.None?
    case Save(n, d, define) =>
      && d.table in s.tables && n in s.w.reg && s.w.reg[n] == d && s.w.view.None?
      && (define ==> n !in s.w.loaded)
    case DeleteRow(n, d) => n in s.w.reg && n in s.w.loaded && d == s.w.reg[n] && s.w.view.None?
    case DropTable(n, d, owned) =>
      && n in s.w.reg && d == s.w.reg[n] && s.w.view.None?
      && (owned <==> n in s.w.loaded) && (owned ==> n !in s.rows)
    case Restore(n, d) => n in s.w.reg && s.w.reg[n] == d && d.table in s.tables && s.w.view.None?
  }

  ghost predicate Inv(s: Sys) {
    RowsHaveTables(s) && OwnedHaveTables(s) && PcHolds(s)
  }

  /** The table about to be dropped is nobody else's. */
  ghost predicate Unshared(s: Sys) {
    s.pc.DropTable? ==>
      && (forall n :: n in s.rows ==> s.rows[n].desc.table != s.pc.desc.table)
      && (forall n :: n in s.w.loaded && n != s.pc.name && n in s.w.reg ==> s.w.reg[n].table != s.pc.desc.table)
  }

  // ---- the exact condition ----

  predicate TakesEffect(a: Label) {
    a.Ok? || a.Lost?
  }

  /** What must hold when a step takes effect: a dropped table is named by no row, a row is
      saved again only while its table exists. */
  ghost predicate Safe(s: Sys, a: Label) {
    TakesEffect(a) ==>
      && (s.pc.DropTable? ==> forall n :: n in s.rows ==> s.rows[n].desc.table != s.pc.desc.table)
      && (s.pc.Restore? ==> s.pc.desc.table in s.tables)
  }

  /** Rows have tables, and so will the row about to be saved. */
  ghost predicate Backed(s: Sys) {
    RowsHaveTables(s) && (s.pc.Save? ==> s.pc.desc.table in s.tables)
  }

  /** Every step keeps every row's table exactly when it is safe. */
  lemma StepExact(s: Sys, a: Label)
    requires Backed(s) && Enabled(s, a)
    ensures Backed(After(s, a)) <==> Safe(s, a)
  {
    if TakesEffect(a) { EffectExact(s, a); } else { QuietStep(s, a); }
  }

  /** A step that runs no statement of the writer drops no table and touches no row. */
  lemma QuietStep(s: Sys, a: Label)
    requires Enabled(s, a) && !TakesEffect(a)
    ensures After(s, a).rows == s.rows && s.tables <= After(s, a).tables && (After(s, a).pc.Save? ==> After(s, a).pc == s.pc)
  {
  }

  lemma EffectExact(s: Sys, a: Label)
    requires Backed(s) && Enabled(s, a) && TakesEffect(a)
    ensures Backed(After(s, a)) <==> Safe(s, a)
  {
    var s' := After(s, a);
    if s.pc.DropTable? {
      assert s'.rows == s.rows && s'.tables == s.tables - {s.pc.desc.table};
    } else if s.pc.Restore? {
      assert s'.rows == s.rows[s.pc.name := Saved(s.rows, s.pc.name, s.pc.desc)] && s'.tables == s.tables;
      assert s.pc.name in s'.rows;
    }
  }

  /** No drop of a shared table and no lost reply of an owned drop: then Restore is safe too. */
  ghost predicate Careful(s: Sys, a: Label) {
    (TakesEffect(a) ==> Unshared(s)) && (a.Lost? && s.pc.DropTable? ==> !s.pc.owned)
  }

  lemma StepKeeps(s: Sys, a: Label)
    requires Inv(s) && Enabled(s, a) && Careful(s, a)
    ensures Inv(After(s, a))
  {
    match a
    case Ok => OkKeeps(s);
    case Lost => LostKeeps(s);
    case Begin(_) => SyncKeeps(s, a);
    case SyncRow(_, _, _) => SyncKeeps(s, a);
    case SyncGone(_, _) => SyncKeeps(s, a);
    case End(_) => SyncKeeps(s, a);
    case _ =>
  }

  lemma OkKeeps(s: Sys)
    requires Inv(s) && Enabled(s, Ok) && Unshared(s)
    ensures Inv(AfterOk(s))
  {
  }

  lemma LostKeeps(s: Sys)
    requires Inv(s) && Enabled(s, Lost) && Careful(s, Lost)
    ensures Inv(AfterLost(s))
  {
  }

  predicate IsSync(a: Label) {
    a.Begin? || a.SyncRow? || a.SyncGone? || a.End?
  }

  lemma SyncKeeps(s: Sys, a: Label)
    requires Inv(s) && Enabled(s, a) && IsSync(a)
    ensures Inv(After(s, a))
  {
  }

  ghost predicate Run(ss: seq<Sys>, labels: seq<Label>) {
    && |ss| == |labels| + 1
    && ss[0].rows == map[] && ss[0].w == Fresh(ss[0].w.code) && ss[0].pc == Idle && ss[0].others == []
    && forall i :: 0 <= i < |labels| ==> Enabled(ss[i], labels[i]) && ss[i + 1] == After(ss[i], labels[i])
  }

  /** In every run, whatever fails, is lost or crashes: every row has its table at every
      position exactly when every step is safe. */
  lemma {:induction false} RowsBackedIff(ss: seq<Sys>, labels: seq<Label>)
    requires Run(ss, labels)
    ensures (forall i :: 0 <= i < |ss| ==> Backed(ss[i])) <==> forall j :: 0 <= j < |labels| ==> Safe(ss[j], labels[j])
  {
    if forall i :: 0 <= i < |ss| ==> Backed(ss[i]) {
      forall j | 0 <= j < |labels| ensures Safe(ss[j], labels[j]) {
        assert Backed(ss[j]) && Backed(ss[j + 1]);
        StepExact(ss[j], labels[j]);
      }
    }
    if forall j :: 0 <= j < |labels| ==> Safe(ss[j], labels[j]) {
      forall i | 0 <= i < |ss| ensures Backed(ss[i]) { BackedAt(ss, labels, i); }
    }
  }

  lemma {:induction false} BackedAt(ss: seq<Sys>, labels: seq<Label>, i: nat)
    requires Run(ss, labels) && i < |ss| && forall j :: 0 <= j < |labels| ==> Safe(ss[j], labels[j])
    ensures Backed(ss[i])
  {
    if i > 0 {
      BackedAt(ss, labels, i - 1);
      StepExact(ss[i - 1], labels[i - 1]);
    }
  }

  /** Conditions a caller can check: in every run that drops no table named by another row or
      owned entry and loses no reply of an owned drop, every persisted descriptor names an
      existing table after every step, failure, lost reply and crash. */
  lemma {:induction false} EveryRowHasItsTable(ss: seq<Sys>, labels: seq<Label>, i: nat)
    requires Run(ss, labels) && i < |ss|
    requires forall j :: 0 <= j < |labels| ==> Careful(ss[j], labels[j])
    ensures Inv(ss[i])
  {
    if i > 0 {
      EveryRowHasItsTable(ss, labels, i - 1);
      StepKeeps(ss[i - 1], labels[i - 1]);
    }
  }

  /** A drop keeps the property exactly when no other row names the table: any other row for
      an owned name, any row at all for a type registered in code. */
  lemma DropIsSafeIff(s: Sys, name: string)
    requires Inv(s) && Free(s) && name in s.w.reg
    ensures
      var s1 := After(s, Drop(name));
      var s2 := if name in s.w.loaded then AfterOk(s1) else s1;
      && s2.pc.DropTable?
      && (RowsHaveTables(AfterOk(s2)) <==>
            forall n :: n in s.rows && (name in s.w.loaded ==> n != name) ==> s.rows[n].desc.table != s.w.reg[name].table)
  {
    var s1 := After(s, Drop(name));
    var s2 := if name in s.w.loaded then AfterOk(s1) else s1;
    var s3 := AfterOk(s2);
    assert s3.tables == s.tables - {s.w.reg[name].table};
    assert s3.rows == if name in s.w.loaded then s.rows - {name} else s.rows;
    if RowsHaveTables(s3) {
      forall n | n in s.rows && (name in s.w.loaded ==> n != name) ensures s.rows[n].desc.table != s.w.reg[name].table {
        assert n in s3.rows;
      }
    }
  }

  /** The state in which a drop that failed at its table leaves name n: the row is new, so its
      revision is 1 again, and the writer has noted that. */
  function SavedAgain(s: Sys, n: string): Sys
    requires n in s.w.reg
  {
    s.(rows := s.rows[n := Row(s.w.reg[n], 1)], w := s.w.(loaded := s.w.loaded[n := 1]))
  }

  /** Failures undo what can be undone: a define that fails leaves the registry and the rows
      as they were, at most with a table more; a failed ensure undoes an alter; a drop whose
      table statement fails is undone by saving the row again, up to its revision - and
      without the table if the statement had taken effect. */
  lemma FailuresRollBack(s: Sys, n: string, d: Desc)
    requires Free(s)
    ensures n !in s.w.reg && n !in s.rows ==>
              var s1 := After(s, Define(n, d));
              After(s1, Fail) == s && After(After(s1, Ok), Fail) == s.(tables := s.tables + {d.table})
    ensures n in s.w.reg ==> After(After(s, Alter(n, d)), Fail) == s
    ensures n in s.w.reg && n in s.w.loaded ==>
              var s1 := After(s, Drop(n));
              && After(s1, Fail) == s
              && After(After(After(s1, Ok), Fail), Ok) == SavedAgain(s, n)
              && After(After(After(s1, Ok), Lost), Ok) == SavedAgain(s, n).(tables := s.tables - {s.w.reg[n].table})
  {
    if n !in s.w.reg {
      assert s.w.reg[n := d] - {n} == s.w.reg;
    } else {
      assert s.w.reg[n := d][n := s.w.reg[n]] == s.w.reg;
      assert (s.rows - {n})[n := Row(s.w.reg[n], 1)] == s.rows[n := Row(s.w.reg[n], 1)];
    }
  }

  /** What completed operations leave behind. A define: the table, the row at revision 1 and the
      entry. An alter of an owned type: the new table, and the new descriptor in row and entry, its
      revision moved exactly if it changed; of a type registered in code: the entry alone. A drop:
      no row, no entry and no table. */
  lemma CompletedOperations(s: Sys, n: string, d: Desc)
    requires Inv(s) && Free(s)
    ensures n !in s.w.reg && n !in s.rows ==>
              var s' := After(After(After(s, Define(n, d)), Ok), Ok);
              && Free(s') && s'.tables == s.tables + {d.table} && s'.rows == s.rows[n := Row(d, 1)]
              && s'.w.reg == s.w.reg[n := d] && s'.w.loaded == s.w.loaded[n := 1]
    ensures n in s.w.loaded && n in s.rows ==>
              var s' := After(After(After(s, Alter(n, d)), Ok), Ok);
              && Free(s') && s'.tables == s.tables + {d.table} && s'.w.reg == s.w.reg[n := d]
              && s'.rows.Keys == s.rows.Keys && (forall m :: m in s.rows && m != n ==> s'.rows[m] == s.rows[m])
              && s'.rows[n].desc == d && s'.w.loaded == s.w.loaded[n := s'.rows[n].revision]
              && s'.rows[n].revision == s.rows[n].revision + (if d == s.rows[n].desc then 0 else 1)
    ensures n in s.w.loaded && n in s.rows && s.w.reg[n].table in s.tables ==>
              var d' := s.w.reg[n].(rest := d.rest);
              var s' := After(After(After(s, AlterColumn(n, d.rest)), Ok), Ok);
              Free(s') && s'.tables == s.tables && s'.w.reg == s.w.reg[n := d'] && s'.rows[n].desc == d'
    ensures n in s.w.reg && n !in s.w.loaded ==>
              var s' := After(After(s, Alter(n, d)), Ok);
              Free(s') && s'.rows == s.rows && s'.w.reg == s.w.reg[n := d] && s'.tables == s.tables + {d.table}
    ensures n in s.w.loaded ==>
              var s' := After(After(After(s, Drop(n)), Ok), Ok);
              && Free(s') && s'.tables == s.tables - {s.w.reg[n].table} && s'.rows == s.rows - {n}
              && s'.w.reg == s.w.reg - {n} && s'.w.loaded == s.w.loaded - {n}
  {
  }

  // ---- which syncs bring a table back ----

  /** Syncs only, any number of them, interleaved, with any results. */
  ghost predicate Syncs(ss: seq<Sys>, labels: seq<Label>) {
    && |ss| == |labels| + 1
    && forall i :: 0 <= i < |labels| ==> IsSync(labels[i]) && Enabled(ss[i], labels[i]) && ss[i + 1] == After(ss[i], labels[i])
  }

  /** Some syncs from s on end with table t. */
  ghost predicate CanHeal(s: Sys, t: string) {
    exists ss: seq<Sys>, labels: seq<Label> :: Syncs(ss, labels) && ss[0] == s && t in ss[|labels|].tables
  }

  /** An instance has work with a row that would create table t: its next sync touches such a
      row, or will once the sync in progress has taken back what it holds of it, or that sync
      still has such a row before it. */
  ghost predicate Work(m: Memory, rows: Rows, n: string, t: string) {
    || (n in rows && rows[n].desc.table == t && (Touches(m, n, rows[n]) || Unlearns(m, n, rows[n])))
    || (m.view.Some? && n in m.view.value && m.view.value[n].desc.table == t && Touches(m, n, m.view.value[n]))
  }

  /** The sync in progress read its rows before n's became `row`, and will act on that. */
  predicate Unlearns(m: Memory, n: string, row: Row) {
    m.view.Some? &&
    if n in m.view.value then m.view.value[n] != row && Touches(m, n, m.view.value[n]) else n in m.loaded
  }

  ghost predicate Wanted(s: Sys, t: string) {
    exists who, n :: Has(s, who) && Work(Mem(s, who), s.rows, n, t)
  }

  /** One instance's sync step where it has no work with table t: it gets none. */
  lemma NoWorkStays(s: Sys, a: Label, t: string, n: string)
    requires IsSync(a) && Enabled(s, a) && forall k :: !Work(Mem(s, a.who), s.rows, k, t)
    ensures Has(After(s, a), a.who) && !Work(Mem(After(s, a), a.who), s.rows, n, t)
  {
    assert !Work(Mem(s, a.who), s.rows, n, t);
    if a.SyncRow? || a.SyncGone? { assert !Work(Mem(s, a.who), s.rows, a.name, t); }
  }

  /** A sync step from a state in which no instance has work with table t. */
  lemma UnwantedStays(s: Sys, a: Label, t: string)
    requires !Wanted(s, t) && t !in s.tables && IsSync(a) && Enabled(s, a)
    ensures !Wanted(After(s, a), t) && t !in After(s, a).tables
  {
    var s' := After(s, a);
    assert s'.rows == s.rows && |s'.others| == |s.others|;
    if a.SyncRow? { assert !Work(Mem(s, a.who), s.rows, a.name, t); }
    forall who, n | Has(s', who) ensures !Work(Mem(s', who), s'.rows, n, t) {
      if who == a.who {
        NoWorkStays(s, a, t, n);
      } else {
        assert Mem(s', who) == Mem(s, who);
      }
    }
  }

  lemma {:induction false} NeverHealed(ss: seq<Sys>, labels: seq<Label>, t: string, i: nat)
    requires Syncs(ss, labels) && !Wanted(ss[0], t) && t !in ss[0].tables && i < |ss|
    ensures !Wanted(ss[i], t) && t !in ss[i].tables
  {
    if i > 0 {
      NeverHealed(ss, labels, t, i - 1);
      UnwantedStays(ss[i - 1], labels[i - 1], t);
    }
  }

  /** One sync step before syncs that heal. */
  lemma HealsLater(s: Sys, a: Label, t: string)
    requires IsSync(a) && Enabled(s, a) && CanHeal(After(s, a), t)
    ensures CanHeal(s, t)
  {
    var ss: seq<Sys>, labels: seq<Label> :| Syncs(ss, labels) && ss[0] == After(s, a) && t in ss[|labels|].tables;
    assert Syncs([s] + ss, [a] + labels) && ([s] + ss)[|[a] + labels|] == ss[|labels|];
  }

  lemma HealsNow(s: Sys, t: string)
    requires t in s.tables
    ensures CanHeal(s, t)
  {
    var none: seq<Label> := [];
    assert Syncs([s], none) && [s][|none|] == s;
  }

  /** The row the sync in progress has before it. */
  lemma HealedByView(s: Sys, who: Who, n: string)
    requires Has(s, who) && Mem(s, who).view.Some? && n in Mem(s, who).view.value
    requires Touches(Mem(s, who), n, Mem(s, who).view.value[n])
    ensures CanHeal(s, Mem(s, who).view.value[n].desc.table)
  {
    var a := SyncRow(who, n, Done);
    HealsNow(After(s, a), Mem(s, who).view.value[n].desc.table);
    HealsLater(s, a, Mem(s, who).view.value[n].desc.table);
  }

  /** A new sync of an instance that touches the row as it is. */
  lemma HealedByNext(s: Sys, who: Who, n: string)
    requires s.pc.Idle? && Has(s, who) && n in s.rows && Touches(Mem(s, who), n, s.rows[n])
    ensures CanHeal(s, s.rows[n].desc.table)
  {
    if Mem(s, who).view.Some? {
      HealedByBegin(After(s, End(who)), who, n);
      HealsLater(s, End(who), s.rows[n].desc.table);
    } else {
      HealedByBegin(s, who, n);
    }
  }

  lemma HealedByBegin(s: Sys, who: Who, n: string)
    requires s.pc.Idle? && Has(s, who) && n in s.rows && Touches(Mem(s, who), n, s.rows[n]) && Mem(s, who).view.None?
    ensures CanHeal(s, s.rows[n].desc.table)
  {
    HealedByView(After(s, Begin(who)), who, n);
    HealsLater(s, Begin(who), s.rows[n].desc.table);
  }

  /** The sync in progress first takes back what the instance holds of the row. */
  lemma HealedAfterAll(s: Sys, who: Who, n: string)
    requires s.pc.Idle? && Has(s, who) && n in s.rows && Unlearns(Mem(s, who), n, s.rows[n])
    ensures CanHeal(s, s.rows[n].desc.table)
  {
    var a := if n in Mem(s, who).view.value then SyncRow(who, n, Done) else SyncGone(who, n);
    HealedByNext(After(s, a), who, n);
    HealsLater(s, a, s.rows[n].desc.table);
  }

  /** With no operation in progress, syncs can bring a missing table back exactly when some
      instance has work with a row on it: the row is new to the instance, or loaded at another
      revision or with another encoding. No sync of an instance that holds the rows as they are
      does. */
  lemma HealsIff(s: Sys, t: string)
    requires s.pc.Idle? && t !in s.tables
    ensures CanHeal(s, t) <==> Wanted(s, t)
  {
    if Wanted(s, t) {
      var who, n :| Has(s, who) && Work(Mem(s, who), s.rows, n, t);
      if n in s.rows && s.rows[n].desc.table == t && Touches(Mem(s, who), n, s.rows[n]) {
        HealedByNext(s, who, n);
      } else if n in s.rows && s.rows[n].desc.table == t && Unlearns(Mem(s, who), n, s.rows[n]) {
        HealedAfterAll(s, who, n);
      } else {
        HealedByView(s, who, n);
      }
    } else if CanHeal(s, t) {
      var ss: seq<Sys>, labels: seq<Label> :| Syncs(ss, labels) && ss[0] == s && t in ss[|labels|].tables;
      NeverHealed(ss, labels, t, |labels|);
    }
  }

  ghost predicate NoSync(s: Sys) {
    forall who :: Has(s, who) ==> Mem(s, who).view.None?
  }

  /** All instances hold row n as it is. */
  ghost predicate InStep(s: Sys, n: string)
    requires n in s.rows
  {
    forall who :: Has(s, who) ==> !Touches(Mem(s, who), n, s.rows[n])
  }

  /** The state after an owned drop whose table statement took effect but was reported as
      failed. */
  function AfterLostDrop(s: Sys, n: string): Sys
    requires n in s.w.reg
  {
    SavedAgain(s, n).(tables := s.tables - {s.w.reg[n].table})
  }

  /** Where all instances were in step with a row of its own table, a lost drop heals by sync
      exactly when the row had been altered since it was defined and another instance had
      loaded it: the row comes back at revision 1, which is all that such an instance can see. */
  lemma LostDropHealsIff(s: Sys, n: string)
    requires s.pc.Idle? && NoSync(s) && n in s.w.loaded && n in s.w.reg
    requires n in s.rows && s.rows[n].desc == s.w.reg[n] && InStep(s, n)
    requires forall m :: m in s.rows && m != n ==> s.rows[m].desc.table != s.w.reg[n].table
    ensures CanHeal(AfterLostDrop(s, n), s.w.reg[n].table) <==>
              s.rows[n].revision != 1 && exists i :: 0 <= i < |s.others| && n in s.others[i].loaded
  {
    var s', row := AfterLostDrop(s, n), Row(s.w.reg[n], 1);
    forall i | 0 <= i < |s.others|
      ensures Touches(s.others[i], n, row) <==> s.rows[n].revision != 1 && n in s.others[i].loaded
    {
      assert !Touches(Mem(s, Other(i)), n, s.rows[n]);
    }
    assert !Touches(s'.w, n, row);
    assert Mem(s, Writer).view.None?;
    forall who | Has(s', who) ensures Mem(s', who).view.None? {
      assert Mem(s, who).view.None?;
    }
    HealsIff(s', s.w.reg[n].table);
    if i :| 0 <= i < |s.others| && Touches(s.others[i], n, row) {
      assert Has(s', Other(i)) && Work(Mem(s', Other(i)), s'.rows, n, s.w.reg[n].table);
    }
    if Wanted(s', s.w.reg[n].table) {
      var who, m :| Has(s', who) && Work(Mem(s', who), s'.rows, m, s.w.reg[n].table);
      assert Mem(s', who).view.None? && m == n && who.Other?;
      assert Touches(s.others[who.i], n, row);
    }
  }

  // ---- reachable runs ----

  ghost predicate CanReach(s: Sys) {
    exists ss, labels :: Run(ss, labels) && ss[|labels|] == s
  }

  lemma ReachNext(s: Sys, a: Label)
    requires CanReach(s) && Enabled(s, a)
    ensures CanReach(After(s, a))
  {
    var ss, labels :| Run(ss, labels) && ss[|labels|] == s;
    assert Run(ss + [After(s, a)], labels + [a]);
  }

  function Begun(tables: set<string>, code: map<string, Desc>): Sys {
    Sys(tables, map[], Fresh(code), Idle, [])
  }

  lemma ReachStart(tables: set<string>, code: map<string, Desc>)
    ensures CanReach(Begun(tables, code))
  {
    var none: seq<Label> := [];
    assert Run([Begun(tables, code)], none) && [Begun(tables, code)][|none|] == Begun(tables, code);
  }

  function Defined(s: Sys, n: string, d: Desc): Sys {
    s.(tables := s.tables + {d.table}, rows := s.rows[n := Row(d, 1)],
       w := s.w.(reg := s.w.reg[n := d], loaded := s.w.loaded[n := 1]))
  }

  /** Defining an unknown name takes three steps. */
  lemma ReachDefined(s: Sys, n: string, d: Desc)
    requires CanReach(s) && Free(s) && n !in s.w.reg && n !in s.rows
    ensures CanReach(Defined(s, n, d))
  {
    var s1 := After(s, Define(n, d));
    ReachNext(s, Define(n, d));
    var s2 := After(s1, Ok);
    ReachNext(s1, Ok);
    ReachNext(s2, Ok);
  }

  /** Dropping an owned name takes three steps. */
  lemma ReachDropped(s: Sys, n: string)
    requires CanReach(s) && Free(s) && n in s.w.reg && n in s.w.loaded
    ensures CanReach(s.(tables := s.tables - {s.w.reg[n].table}, rows := s.rows - {n},
                        w := s.w.(reg := s.w.reg - {n}, loaded := s.w.loaded - {n})))
  {
    var s1 := After(s, Drop(n));
    ReachNext(s, Drop(n));
    var s2 := After(s1, Ok);
    ReachNext(s1, Ok);
    ReachNext(s2, Ok);
  }

  /** Two persisted types on one table: dropping one leaves the other's row without it. */
  lemma SharedTableBreaks()
    ensures exists s :: CanReach(s) && s.w.code == map[] && !RowsHaveTables(s)
  {
    var d := Desc("t", "");
    var s0 := Begun({}, map[]);
    ReachStart({}, map[]);
    var s1 := Defined(s0, "a", d);
    ReachDefined(s0, "a", d);
    var s2 := Defined(s1, "b", d);
    ReachDefined(s1, "b", d);
    ReachDropped(s2, "a");
    assert "b" in s2.rows - {"a"};
  }

  /** A type registered in code on a persisted type's table: dropping it takes the table. */
  lemma CodeTypeBreaks()
    ensures exists s :: CanReach(s) && s.rows.Keys == {"a"} && !RowsHaveTables(s)
  {
    var d := Desc("t", "");
    var s0 := Begun({"t"}, map["c" := d]);
    ReachStart({"t"}, map["c" := d]);
    var s := Defined(s0, "a", d);
    ReachDefined(s0, "a", d);
    ReachNext(s, Drop("c"));
    var s1 := After(s, Drop("c"));
    ReachNext(s1, Ok);
    assert "a" in After(s1, Ok).rows;
  }

  lemma ReachLostDrop(s: Sys, n: string)
    requires CanReach(s) && Free(s) && n in s.w.loaded && n in s.w.reg
    ensures CanReach(AfterLostDrop(s, n))
  {
    var s1 := After(s, Drop(n));
    ReachNext(s, Drop(n));
    var s2 := After(s1, Ok);
    ReachNext(s1, Ok);
    var s3 := After(s2, Lost);
    ReachNext(s2, Lost);
    ReachNext(s3, Ok);
    FailuresRollBack(s, n, Desc("", ""));
  }

  /** Another instance starts and syncs one row. */
  function Joined(s: Sys, n: string): Sys
    requires n in s.rows
  {
    var row := s.rows[n];
    s.(tables := s.tables + {row.desc.table},
       others := s.others + [Memory(map[], map[n := row.desc], map[n := row.revision], None)])
  }

  function Added(s: Sys, m: Memory): Sys {
    s.(others := s.others + [m])
  }

  /** The last instance goes from one memory to another. */
  lemma AddedWith(s: Sys, m: Memory, m': Memory)
    ensures
      var s', who := Added(s, m), Other(|s.others|);
      Has(s', who) && Mem(s', who) == m && With(s', who, m') == Added(s, m')
  {
    assert (s.others + [m])[|s.others| := m'] == s.others + [m'];
  }

  lemma ReachBegun(s: Sys)
    requires CanReach(s)
    ensures CanReach(Added(s, Fresh(map[]).(view := Some(s.rows))))
  {
    var m := Fresh(map[]);
    ReachNext(s, Start(map[]));
    AddedWith(s, m, m.(view := Some(s.rows)));
    ReachNext(Added(s, m), Begin(Other(|s.others|)));
  }

  lemma ReachJoined(s: Sys, n: string)
    requires CanReach(s) && n in s.rows
    ensures CanReach(Joined(s, n))
  {
    var who, row := Other(|s.others|), s.rows[n];
    var m1 := Fresh(map[]).(view := Some(s.rows));
    var m2 := m1.(reg := map[n := row.desc], loaded := map[n := row.revision]);
    ReachBegun(s);
    AddedWith(s, m1, m2);
    assert Synced(m1, n, row, Done) == m2;
    ReachNext(Added(s, m1), SyncRow(who, n, Done));
    var s2 := s.(tables := s.tables + {row.desc.table});
    AddedWith(s2, m2, m2.(view := None));
    ReachNext(Added(s2, m2), End(who));
  }

  /** Nothing shared, one lost reply: the table is gone, the row is there again, another
      instance holds it too, and no number of syncs brings the table back. */
  lemma LostDropBreaks()
    ensures exists s ::
              && CanReach(s) && s.w.code == map[] && |s.others| == 1 && s.rows == map["a" := Row(Desc("t", ""), 1)]
              && !RowsHaveTables(s) && !CanHeal(s, "t")
  {
    var d := Desc("t", "");
    var s0 := Begun({}, map[]);
    ReachStart({}, map[]);
    var s1 := Defined(s0, "a", d);
    ReachDefined(s0, "a", d);
    var s2 := Joined(s1, "a");
    ReachJoined(s1, "a");
    assert |s2.others| == 1;
    forall who | Has(s2, who) ensures Mem(s2, who).view.None? && !Touches(Mem(s2, who), "a", s2.rows["a"]) {
      if who.Other? { assert who.i == 0; }
    }
    ReachLostDrop(s2, "a");
    LostDropHealsIff(s2, "a");
    assert "a" in AfterLostDrop(s2, "a").rows;
  }
}
