/** Whole runs of the two sinks: which calls are admissible, counted in rewrites, and the
    agreement that follows. */
module SinkRuns {
  import opened AnalyticsModel
  import opened MergeTree
  import opened SinkRefinement
  import CH = ClickHouseSink
  import D = DuckSink
  import opened Wrappers

  /** One step of the ClickHouse side: a call with the count it returned, or merges. */
  datatype Label = Do(call: Call, n: int) | Compact

  ghost predicate HouseStep(c: CH.House, l: Label, c': CH.House) {
    match l
    case Do(call, n) => CH.Step(c, call, c', n)
    case Compact => CH.Compacted(c, c')
  }

  const EMPTY_HOUSE := CH.House(multiset{}, multiset{}, multiset{})
  const EMPTY_DUCK := D.Duck(map[], map[], map[])

  /** A run from the empty tables: hs[i] --ls[i]--> hs[i+1]. */
  ghost predicate HouseRun(hs: seq<CH.House>, ls: seq<Label>) {
    && |hs| == |ls| + 1 && hs[0] == EMPTY_HOUSE
    && forall i {:trigger HouseStep(hs[i], ls[i], hs[i + 1])} :: 0 <= i < |ls| ==> HouseStep(hs[i], ls[i], hs[i + 1])
  }

  ghost function DuckStep(d: D.Duck, l: Label): D.Duck {
    if l.Do? then D.Step(d, l.call).0 else d
  }

  /** The DuckDB sink given the same calls, which knows nothing of merges. */
  ghost function DuckAfter(ls: seq<Label>): D.Duck {
    if ls == [] then EMPTY_DUCK
    else DuckStep(DuckAfter(ls[..|ls| - 1]), ls[|ls| - 1])
  }

  ghost predicate AllAdmissible(hs: seq<CH.House>, ls: seq<Label>, cs: Contents)
    requires |hs| == |ls| + 1
  {
    forall i {:trigger Admissible(hs[i], ls[i].call, cs)} :: 0 <= i < |ls| && ls[i].Do? ==> Admissible(hs[i], ls[i].call, cs)
  }

  lemma StepSim(c: CH.House, d: D.Duck, l: Label, c': CH.House, cs: Contents)
    requires Sim(c, d, cs) && HouseStep(c, l, c') && (l.Do? ==> Admissible(c, l.call, cs))
    ensures Sim(c', DuckStep(d, l), cs)
    ensures l.Do? ==> l.n == D.Step(d, l.call).1
  {
    if l.Compact? { CompactionIsInvisible(c, d, c', cs); } else { StepRefines(c, d, l.call, c', l.n, cs); }
  }

  // ---- when every call is admissible ----

  ghost predicate InputFixed(l: Label, cs: Contents) {
    l.Do? ==>
      match l.call
      case UpsertFacts(fs) => forall j :: 0 <= j < |fs| ==> FactInput(fs[j], cs)
      case AppendEvents(es) => forall j :: 0 <= j < |es| ==> EventInput(es[j], cs)
      case _ => true
  }

  ghost predicate InputsFixed(ls: seq<Label>, cs: Contents) {
    forall i {:trigger InputFixed(ls[i], cs)} :: 0 <= i < |ls| ==> InputFixed(ls[i], cs)
  }

  /** The facts and events a call rewrites, on the DuckDB side. */
  ghost function FactsHit(d: D.Duck, l: Label): set<Key> {
    if l.Do? && l.call.Reproject?
    then D.Altered(d.facts, FactScope(l.call.tenant, l.call.aggregate), l.call.transform) else {}
  }

  ghost function EventsHit(d: D.Duck, l: Label): set<EventKey> {
    if l.Do? && l.call.Reproject?
    then D.Altered(d.events, EventScope(l.call.tenant, l.call.aggregate), l.call.transform) else {}
  }

  type FactCount = (Key, int) -> nat
  type EventCount = EventKey -> nat

  /** How often the calls have rewritten version v of a fact since it was last absent, counted
      on the DuckDB side: what a producer can know. */
  ghost function FactRewrites(ls: seq<Label>, k: Key, v: int): nat {
    if ls == [] || k !in DuckAfter(ls).facts then 0
    else
      var d, l := DuckAfter(ls[..|ls| - 1]), ls[|ls| - 1];
      FactRewrites(ls[..|ls| - 1], k, v) + if k in FactsHit(d, l) && d.facts[k].meta.version == v then 1 else 0
  }

  ghost function EventRewrites(ls: seq<Label>, k: EventKey): nat {
    if ls == [] || k !in DuckAfter(ls).events then 0
    else
      var d, l := DuckAfter(ls[..|ls| - 1]), ls[|ls| - 1];
      EventRewrites(ls[..|ls| - 1], k) + if k in EventsHit(d, l) then 1 else 0
  }

  ghost function FactsCounted(ls: seq<Label>): FactCount {
    (k, v) => FactRewrites(ls, k, v)
  }

  ghost function EventsCounted(ls: seq<Label>): EventCount {
    k => EventRewrites(ls, k)
  }

  /** No fact version has been rewritten 2^20 times, no event 2^64 times. */
  ghost predicate Within(nf: FactCount, ne: EventCount) {
    (forall k, v :: nf(k, v) < CH.SLOTS) && (forall k :: ne(k) < CH.WORD)
  }

  /** How the counts move when the keys `hit` are rewritten. */
  ghost predicate FactsMove(n: FactCount, n': FactCount, m: map<Key, FactDoc>, m': map<Key, FactDoc>, hit: set<Key>) {
    forall k, v :: n'(k, v) ==
      if k !in m' then 0 else n(k, v) + if k in hit && k in m && m[k].meta.version == v then 1 else 0
  }

  ghost predicate EventsMove(n: EventCount, n': EventCount, m': map<EventKey, EventDoc>, hit: set<EventKey>) {
    forall k :: n'(k) == if k !in m' then 0 else n(k) + if k in hit then 1 else 0
  }

  lemma CountsMove(ls: seq<Label>, l: Label)
    ensures DuckAfter(ls + [l]) == DuckStep(DuckAfter(ls), l)
    ensures FactsMove(FactsCounted(ls), FactsCounted(ls + [l]), DuckAfter(ls).facts, DuckAfter(ls + [l]).facts, FactsHit(DuckAfter(ls), l))
    ensures EventsMove(EventsCounted(ls), EventsCounted(ls + [l]), DuckAfter(ls + [l]).events, EventsHit(DuckAfter(ls), l))
  {
    assert (ls + [l])[..|ls|] == ls;
  }

  // ---- the winners' ranks count the rewrites ----

  /** The winner's slot is the number of its rewrites; a version not yet reached has none. */
  ghost predicate ExactFacts(t: Table<Key, FactDoc>, m: map<Key, FactDoc>, n: FactCount) {
    && (forall r :: Wins(t, r) ==> Slot(r) == n(r.key, r.value.meta.version))
    && (forall k, v :: k !in m || m[k].meta.version < v ==> n(k, v) == 0)
  }

  ghost predicate ExactEvents(t: Table<EventKey, EventDoc>, m: map<EventKey, EventDoc>, n: EventCount) {
    (forall r :: Wins(t, r) ==> r.rank == n(r.key)) && (forall k :: k !in m ==> n(k) == 0)
  }

  /** Rows went, at most, and each key that is left has the winner it had. */
  ghost predicate SameWinners<K(!new), V(!new)>(t: Table<K, V>, t': Table<K, V>) {
    forall r :: Wins(t', r) ==> Wins(t, r)
  }

  lemma MergedWinners<K(!new), V(!new)>(t: Table<K, V>, t': Table<K, V>)
    requires Merged(t, t')
    ensures SameWinners(t, t')
  {
    forall r | Wins(t', r) ensures Wins(t, r) {
      forall s | s in t && s.key == r.key ensures s.rank <= r.rank { assert Covered(t', s); }
    }
  }

  lemma DeletedWinners<K(!new), V(!new)>(t: Table<K, V>, t': Table<K, V>, p: Row<K, V> -> bool)
    requires Deleted(t, t', p)
    requires forall r, s :: r in t && s in t && r.key == s.key ==> p(r) == p(s)
    ensures SameWinners(t, t')
  {
    forall r | Wins(t', r) ensures Wins(t, r) {
      assert r in t;
      forall s | s in t && s.key == r.key ensures s.rank <= r.rank { assert s in t'; }
    }
  }

  /** A row of the old table that wins in a larger one wins in the old one. */
  lemma StillWins<K(!new), V(!new)>(t: Table<K, V>, more: Table<K, V>, r: Row<K, V>)
    requires Wins(t + more, r) && r in t
    ensures Wins(t, r)
  {
    forall s | s in t && s.key == r.key ensures s.rank <= r.rank { assert s in t + more; }
  }

  lemma FactsKeep(t: Table<Key, FactDoc>, t': Table<Key, FactDoc>, m: map<Key, FactDoc>, m': map<Key, FactDoc>,
                  n: FactCount, n': FactCount)
    requires ExactFacts(t, m, n) && SameWinners(t, t') && Shows(t', m') && FactsMove(n, n', m, m', {})
    requires forall k :: k in m' ==> k in m && m'[k] == m[k]
    ensures ExactFacts(t', m', n')
  {
    forall r | Wins(t', r) ensures Slot(r) == n'(r.key, r.value.meta.version) {
      assert Wins(t, r) && r.key in Keys(t');
    }
  }

  lemma EventsKeep(t: Table<EventKey, EventDoc>, t': Table<EventKey, EventDoc>, m: map<EventKey, EventDoc>,
                   m': map<EventKey, EventDoc>, n: EventCount, n': EventCount)
    requires ExactEvents(t, m, n) && SameWinners(t, t') && Shows(t', m') && EventsMove(n, n', m', {})
    ensures ExactEvents(t', m', n')
  {
    forall r | Wins(t', r) ensures r.rank == n'(r.key) {
      assert Wins(t, r) && r.key in Keys(t');
    }
  }

  lemma FreshRows(fs: seq<Fact>, cs: Contents)
    requires forall j :: 0 <= j < |fs| ==> FactInput(fs[j], cs)
    ensures forall r :: r in CH.Rows(CH.FactRow, fs) ==> Slot(r) == 0
  {
    if fs != [] {
      FreshRows(fs[..|fs| - 1], cs);
      PackShifts(fs[|fs| - 1].version);
    }
  }

  /** A fresh row wins only as a copy of the winner or with a version not yet reached. */
  lemma FactsAdded(t: Table<Key, FactDoc>, more: Table<Key, FactDoc>, m: map<Key, FactDoc>, m': map<Key, FactDoc>,
                   cs: Contents, n: FactCount, n': FactCount)
    requires FactSim(t, m, cs) && Shows(t + more, m') && ExactFacts(t, m, n) && FactsMove(n, n', m, m', {})
    requires forall r :: r in more ==> Slot(r) == 0
    requires forall k :: k in m ==> k in m' && m[k].meta.version <= m'[k].meta.version
    ensures ExactFacts(t + more, m', n')
  {
    forall r | Wins(t + more, r) ensures Slot(r) == n'(r.key, r.value.meta.version) {
      AddedWinner(t, more, m, cs, n, r);
      assert r.key in Keys(t + more);
    }
  }

  lemma AddedWinner(t: Table<Key, FactDoc>, more: Table<Key, FactDoc>, m: map<Key, FactDoc>, cs: Contents,
                    n: FactCount, r: Row<Key, FactDoc>)
    requires FactSim(t, m, cs) && ExactFacts(t, m, n) && Wins(t + more, r) && forall s :: s in more ==> Slot(s) == 0
    ensures Slot(r) == n(r.key, r.value.meta.version)
  {
    if r in t {
      StillWins(t, more, r);
    } else {
      assert r in more;
      FreshWinner(t, more, m, cs, n, r);
    }
  }

  lemma FreshWinner(t: Table<Key, FactDoc>, more: Table<Key, FactDoc>, m: map<Key, FactDoc>, cs: Contents,
                    n: FactCount, r: Row<Key, FactDoc>)
    requires FactSim(t, m, cs) && ExactFacts(t, m, n) && Wins(t + more, r) && Slot(r) == 0
    ensures n(r.key, r.value.meta.version) == 0
  {
    if r.key in m && r.value.meta.version <= m[r.key].meta.version {
      var w := WinnerExists(t, r.key);
      assert w in t && w in t + more && w.rank <= r.rank;
      BandStart(w.value.meta.version, Slot(w), r.value.meta.version);
    }
  }

  lemma BandStart(v: int, slot: int, v0: int)
    requires 0 <= slot && v0 <= v && v * CH.SLOTS + slot <= v0 * CH.SLOTS
    ensures v == v0 && slot == 0
  {
  }

  lemma FreshEventRows(es: seq<Event>)
    ensures forall r :: r in CH.Rows(CH.EventRow, es) ==> r.rank == 0
  {
  }

  lemma EventsAdded(t: Table<EventKey, EventDoc>, more: Table<EventKey, EventDoc>, m: map<EventKey, EventDoc>,
                    m': map<EventKey, EventDoc>, cs: Contents, n: EventCount, n': EventCount)
    requires EventSim(t, m, cs) && EventSim(t + more, m', cs) && ExactEvents(t, m, n) && EventsMove(n, n', m', {})
    requires forall r :: r in more ==> r.rank == 0
    ensures ExactEvents(t + more, m', n')
  {
    forall r | Wins(t + more, r) ensures r.rank == n'(r.key) {
      assert r.key in Keys(t + more);
      if r in t {
        StillWins(t, more, r);
      } else if r.key in m {
        var w := WinnerExists(t, r.key);
        assert r in more && w in t + more && w.rank <= r.rank;
      }
    }
  }

  /** What wins after a pass: the rewritten row of an altered key, one rank above the winner,
      and the old winner of any other. */
  lemma RewrittenWinner<K(!new), M(!new)>(
    t: Table<K, Doc<M>>, m: map<K, Doc<M>>, scope: K -> bool, f: Transform, up: map<K, Row<K, Doc<M>>>, r: Row<K, Doc<M>>)
    returns (w: Row<K, Doc<M>>)
    requires Shows(t, m) && Coherent(t) && CH.RewriteSet(t, scope, f, up) && NoWrap(t, scope, f)
    requires Wins(t + multiset(up.Values), r)
    ensures Wins(t, w) && w.key == r.key && w.value.meta == r.value.meta && r.key in m && w.value == m[r.key]
    ensures r.rank == w.rank + if r.key in D.Altered(m, scope, f) then 1 else 0
  {
    RewrittenKeys(t, m, scope, f, up);
    assert r in t || r in up.Values;
    if k :| k in up && up[k] == r {
      assert CH.Rewrites(t, f, up[k]);
      w := RewriteOne(t, m, f, r);
      assert f(w.value.payload) != Some(w.value.payload);
    } else {
      StillWins(t, multiset(up.Values), r);
      w := r;
      assert r.key in Keys(t);
      assert r.key !in up by {
        if r.key in up { Overtaken(t, m, scope, f, up, r); }
      }
    }
  }

  /** An old row of a rewritten key no longer wins. */
  lemma Overtaken<K(!new), M(!new)>(
    t: Table<K, Doc<M>>, m: map<K, Doc<M>>, scope: K -> bool, f: Transform, up: map<K, Row<K, Doc<M>>>, r: Row<K, Doc<M>>)
    requires Shows(t, m) && Coherent(t) && CH.RewriteSet(t, scope, f, up) && NoWrap(t, scope, f) && r in t && r.key in up
    ensures !Wins(t + multiset(up.Values), r)
  {
    var s := up[r.key];
    assert CH.Rewrites(t, f, up[r.key]);
    RewriteTops(t, m, scope, f, s);
    assert s in up.Values && s in t + multiset(up.Values) && r.rank < s.rank;
  }

  lemma FactsRewritten(t: Table<Key, FactDoc>, m: map<Key, FactDoc>, scope: Key -> bool, f: Transform,
                       up: map<Key, Row<Key, FactDoc>>, n: FactCount, n': FactCount, hit: set<Key>, m': map<Key, FactDoc>)
    requires Shows(t, m) && Coherent(t) && NoWrap(t, scope, f) && CH.RewriteSet(t, scope, f, up) && ExactFacts(t, m, n)
    requires hit == D.Altered(m, scope, f) && m'.Keys == m.Keys && forall k :: k in m ==> m'[k].meta == m[k].meta
    requires FactsMove(n, n', m, m', hit)
    ensures ExactFacts(t + multiset(up.Values), m', n')
  {
    forall r | Wins(t + multiset(up.Values), r) ensures Slot(r) == n'(r.key, r.value.meta.version) {
      var w := RewrittenWinner(t, m, scope, f, up, r);
    }
  }

  lemma EventsRewritten(t: Table<EventKey, EventDoc>, m: map<EventKey, EventDoc>, scope: EventKey -> bool, f: Transform,
                        up: map<EventKey, Row<EventKey, EventDoc>>, n: EventCount, n': EventCount, hit: set<EventKey>,
                        m': map<EventKey, EventDoc>)
    requires Shows(t, m) && Coherent(t) && NoWrap(t, scope, f) && CH.RewriteSet(t, scope, f, up) && ExactEvents(t, m, n)
    requires hit == D.Altered(m, scope, f) && m'.Keys == m.Keys && EventsMove(n, n', m', hit)
    ensures ExactEvents(t + multiset(up.Values), m', n')
  {
    forall r | Wins(t + multiset(up.Values), r) ensures r.rank == n'(r.key) {
      var w := RewrittenWinner(t, m, scope, f, up, r);
    }
  }

  /** A winner in scope is altered exactly when the transform changes its payload. */
  lemma AlteredWinner<K(!new), M(!new)>(
    t: Table<K, Doc<M>>, m: map<K, Doc<M>>, scope: K -> bool, f: Transform, up: map<K, Row<K, Doc<M>>>, r: Row<K, Doc<M>>)
    requires Shows(t, m) && Coherent(t) && CH.RewriteSet(t, scope, f, up) && Wins(t, r) && scope(r.key)
    ensures r.key in m && r.value == m[r.key]
    ensures r.key in D.Altered(m, scope, f) <==> f(r.value.payload) != Some(r.value.payload)
  {
    RewrittenKeys(t, m, scope, f, up);
    assert r.key in Keys(t);
  }

  lemma FactRoomOut(t: Table<Key, FactDoc>, m: map<Key, FactDoc>, scope: Key -> bool, f: Transform,
                    up: map<Key, Row<Key, FactDoc>>, n: FactCount, k: Key)
    requires Shows(t, m) && Coherent(t) && CH.RewriteSet(t, scope, f, up) && ExactFacts(t, m, n)
    requires FactRoom(t, scope, f) && k in D.Altered(m, scope, f)
    ensures n(k, m[k].meta.version) + 1 < CH.SLOTS
  {
    var w := WinnerExists(t, k);
    AlteredWinner(t, m, scope, f, up, w);
  }

  /** The room condition of the facts, in counts. */
  lemma FactRoomIff(t: Table<Key, FactDoc>, m: map<Key, FactDoc>, scope: Key -> bool, f: Transform,
                    up: map<Key, Row<Key, FactDoc>>, n: FactCount, n': FactCount, hit: set<Key>, m': map<Key, FactDoc>)
    requires Shows(t, m) && Coherent(t) && CH.RewriteSet(t, scope, f, up) && ExactFacts(t, m, n)
    requires hit == D.Altered(m, scope, f) && m'.Keys == m.Keys
    requires FactsMove(n, n', m, m', hit) && forall k, v :: n(k, v) < CH.SLOTS
    ensures FactRoom(t, scope, f) <==> forall k, v :: n'(k, v) < CH.SLOTS
  {
    if FactRoom(t, scope, f) {
      forall k, v ensures n'(k, v) < CH.SLOTS {
        if k in hit { FactRoomOut(t, m, scope, f, up, n, k); }
      }
    }
    if forall k, v :: n'(k, v) < CH.SLOTS {
      forall r | Wins(t, r) && scope(r.key) && f(r.value.payload) != Some(r.value.payload) ensures Slot(r) + 1 < CH.SLOTS {
        AlteredWinner(t, m, scope, f, up, r);
        assert n'(r.key, r.value.meta.version) < CH.SLOTS;
      }
    }
  }

  lemma EventRoomOut(t: Table<EventKey, EventDoc>, m: map<EventKey, EventDoc>, scope: EventKey -> bool, f: Transform,
                     up: map<EventKey, Row<EventKey, EventDoc>>, n: EventCount, k: EventKey)
    requires Shows(t, m) && Coherent(t) && CH.RewriteSet(t, scope, f, up) && ExactEvents(t, m, n)
    requires EventRoom(t, scope, f) && k in D.Altered(m, scope, f)
    ensures n(k) + 1 < CH.WORD
  {
    var w := WinnerExists(t, k);
    AlteredWinner(t, m, scope, f, up, w);
  }

  lemma EventRoomIff(t: Table<EventKey, EventDoc>, m: map<EventKey, EventDoc>, scope: EventKey -> bool, f: Transform,
                     up: map<EventKey, Row<EventKey, EventDoc>>, n: EventCount, n': EventCount, hit: set<EventKey>,
                     m': map<EventKey, EventDoc>)
    requires Shows(t, m) && Coherent(t) && CH.RewriteSet(t, scope, f, up) && ExactEvents(t, m, n)
    requires hit == D.Altered(m, scope, f) && m'.Keys == m.Keys
    requires EventsMove(n, n', m', hit) && forall k :: n(k) < CH.WORD
    ensures EventRoom(t, scope, f) <==> forall k :: n'(k) < CH.WORD
  {
    if EventRoom(t, scope, f) {
      forall k ensures n'(k) < CH.WORD {
        if k in hit { EventRoomOut(t, m, scope, f, up, n, k); }
      }
    }
    if forall k :: n'(k) < CH.WORD {
      forall r | Wins(t, r) && scope(r.key) && f(r.value.payload) != Some(r.value.payload) ensures r.rank + 1 < CH.WORD {
        AlteredWinner(t, m, scope, f, up, r);
        assert n'(r.key) < CH.WORD;
      }
    }
  }

  // ---- one call ----

  /** Everything known of a state and its counts. */
  ghost predicate Tracked(c: CH.House, d: D.Duck, nf: FactCount, ne: EventCount, cs: Contents) {
    Sim(c, d, cs) && ExactFacts(c.facts, d.facts, nf) && ExactEvents(c.events, d.events, ne)
  }

  /** The DuckDB state and the counts after one step more. */
  ghost predicate Moves(d: D.Duck, l: Label, d': D.Duck, nf: FactCount, ne: EventCount, nf': FactCount, ne': EventCount) {
    && d' == DuckStep(d, l)
    && FactsMove(nf, nf', d.facts, d'.facts, FactsHit(d, l)) && EventsMove(ne, ne', d'.events, EventsHit(d, l))
  }

  /** The rows a reprojection inserts. */
  lemma PassOf(c: CH.House, t: string, a: string, f: Transform, c': CH.House, n: int)
    returns (fu: map<Key, Row<Key, FactDoc>>, eu: map<EventKey, Row<EventKey, EventDoc>>)
    requires CH.Step(c, Reproject(t, a, f), c', n)
    ensures CH.RewriteSet(c.facts, FactScope(t, a), f, fu) && CH.RewriteSet(c.events, EventScope(t, a), f, eu)
    ensures c'.facts == c.facts + multiset(fu.Values) && c'.events == c.events + multiset(eu.Values)
  {
    fu, eu :|
      && CH.RewriteSet(c.facts, FactScope(t, a), f, fu)
      && CH.RewriteSet(c.events, EventScope(t, a), f, eu)
      && c' == c.(facts := c.facts + multiset(fu.Values), events := c.events + multiset(eu.Values))
      && n == |fu| + |eu|;
  }

  /** What a reprojection does to the DuckDB tables and the counts. */
  ghost predicate MovesOn(d: D.Duck, sf: Key -> bool, se: EventKey -> bool, f: Transform, d': D.Duck,
                          nf: FactCount, ne: EventCount, nf': FactCount, ne': EventCount) {
    && d'.facts.Keys == d.facts.Keys && (forall k :: k in d.facts ==> d'.facts[k].meta == d.facts[k].meta)
    && d'.events.Keys == d.events.Keys
    && FactsMove(nf, nf', d.facts, d'.facts, D.Altered(d.facts, sf, f))
    && EventsMove(ne, ne', d'.events, D.Altered(d.events, se, f))
  }

  lemma ReprojectMoves(d: D.Duck, l: Label, d': D.Duck, nf: FactCount, ne: EventCount, nf': FactCount, ne': EventCount)
    requires l.Do? && l.call.Reproject? && Moves(d, l, d', nf, ne, nf', ne')
    ensures MovesOn(d, FactScope(l.call.tenant, l.call.aggregate), EventScope(l.call.tenant, l.call.aggregate),
                    l.call.transform, d', nf, ne, nf', ne')
  {
  }

  lemma PassTracked(c: CH.House, d: D.Duck, sf: Key -> bool, se: EventKey -> bool, f: Transform,
                    fu: map<Key, Row<Key, FactDoc>>, eu: map<EventKey, Row<EventKey, EventDoc>>, d': D.Duck, cs: Contents,
                    nf: FactCount, ne: EventCount, nf': FactCount, ne': EventCount)
    requires Tracked(c, d, nf, ne, cs) && CH.RewriteSet(c.facts, sf, f, fu) && CH.RewriteSet(c.events, se, f, eu)
    requires FactRoom(c.facts, sf, f) && EventRoom(c.events, se, f) && MovesOn(d, sf, se, f, d', nf, ne, nf', ne')
    ensures ExactFacts(c.facts + multiset(fu.Values), d'.facts, nf') && ExactEvents(c.events + multiset(eu.Values), d'.events, ne')
  {
    assert NoWrap(c.facts, sf, f) && NoWrap(c.events, se, f);
    FactsRewritten(c.facts, d.facts, sf, f, fu, nf, nf', D.Altered(d.facts, sf, f), d'.facts);
    EventsRewritten(c.events, d.events, se, f, eu, ne, ne', D.Altered(d.events, se, f), d'.events);
  }

  lemma RoomIff(c: CH.House, d: D.Duck, sf: Key -> bool, se: EventKey -> bool, f: Transform,
                fu: map<Key, Row<Key, FactDoc>>, eu: map<EventKey, Row<EventKey, EventDoc>>, d': D.Duck, cs: Contents,
                nf: FactCount, ne: EventCount, nf': FactCount, ne': EventCount)
    requires Tracked(c, d, nf, ne, cs) && CH.RewriteSet(c.facts, sf, f, fu) && CH.RewriteSet(c.events, se, f, eu)
    requires Within(nf, ne) && MovesOn(d, sf, se, f, d', nf, ne, nf', ne')
    ensures FactRoom(c.facts, sf, f) && EventRoom(c.events, se, f) <==> Within(nf', ne')
  {
    FactRoomIff(c.facts, d.facts, sf, f, fu, nf, nf', D.Altered(d.facts, sf, f), d'.facts);
    EventRoomIff(c.events, d.events, se, f, eu, ne, ne', D.Altered(d.events, se, f), d'.events);
  }

  /** A step that adds and rewrites nothing. */
  lemma RemovalTracked(c: CH.House, d: D.Duck, c': CH.House, d': D.Duck, cs: Contents,
                       nf: FactCount, ne: EventCount, nf': FactCount, ne': EventCount)
    requires Tracked(c, d, nf, ne, cs) && Sim(c', d', cs)
    requires FactsMove(nf, nf', d.facts, d'.facts, {}) && EventsMove(ne, ne', d'.events, {})
    requires SameWinners(c.facts, c'.facts) && SameWinners(c.events, c'.events)
    requires forall k :: k in d'.facts ==> k in d.facts && d'.facts[k] == d.facts[k]
    ensures ExactFacts(c'.facts, d'.facts, nf') && ExactEvents(c'.events, d'.events, ne')
  {
    FactsKeep(c.facts, c'.facts, d.facts, d'.facts, nf, nf');
    EventsKeep(c.events, c'.events, d.events, d'.events, ne, ne');
  }

  lemma UpsertTracked(c: CH.House, d: D.Duck, fs: seq<Fact>, cs: Contents,
                      nf: FactCount, ne: EventCount, nf': FactCount, ne': EventCount)
    requires Tracked(c, d, nf, ne, cs) && forall j :: 0 <= j < |fs| ==> FactInput(fs[j], cs)
    requires FactSim(c.facts + CH.Rows(CH.FactRow, fs), D.GateFacts(d.facts, fs), cs)
    requires FactsMove(nf, nf', d.facts, D.GateFacts(d.facts, fs), {}) && EventsMove(ne, ne', d.events, {})
    ensures ExactFacts(c.facts + CH.Rows(CH.FactRow, fs), D.GateFacts(d.facts, fs), nf') && ExactEvents(c.events, d.events, ne')
  {
    FreshRows(fs, cs);
    D.UpsertNeverLowers(d.facts, fs);
    FactsAdded(c.facts, CH.Rows(CH.FactRow, fs), d.facts, D.GateFacts(d.facts, fs), cs, nf, nf');
    EventsKeep(c.events, c.events, d.events, d.events, ne, ne');
  }

  lemma AppendTracked(c: CH.House, d: D.Duck, es: seq<Event>, cs: Contents,
                      nf: FactCount, ne: EventCount, nf': FactCount, ne': EventCount)
    requires Tracked(c, d, nf, ne, cs)
    requires EventSim(c.events + CH.Rows(CH.EventRow, es), D.AddEvents(d.events, es), cs)
    requires FactsMove(nf, nf', d.facts, d.facts, {}) && EventsMove(ne, ne', D.AddEvents(d.events, es), {})
    ensures ExactFacts(c.facts, d.facts, nf') && ExactEvents(c.events + CH.Rows(CH.EventRow, es), D.AddEvents(d.events, es), ne')
  {
    FreshEventRows(es);
    FactsKeep(c.facts, c.facts, d.facts, d.facts, nf, nf');
    EventsAdded(c.events, CH.Rows(CH.EventRow, es), d.events, D.AddEvents(d.events, es), cs, ne, ne');
  }

  /** Steps after which facts and events are at most fewer. */
  predicate Removal(l: Label) {
    l.Compact? || l.call.SetWatermark? || l.call.Prune? || l.call.Purge?
  }

  /** Merges and deletes leave every remaining key its winner. */
  lemma RemovalWinners(c: CH.House, d: D.Duck, l: Label, c': CH.House, cs: Contents)
    requires Sim(c, d, cs) && HouseStep(c, l, c')
    requires Removal(l)
    ensures SameWinners(c.facts, c'.facts) && SameWinners(c.events, c'.events)
  {
    if l.Compact? {
      MergedWinners(c.facts, c'.facts);
      MergedWinners(c.events, c'.events);
    } else if l.call.Prune? {
      DeletedWinners(c.events, c'.events, CH.StaleEvent(l.call.olderThan));
    } else if l.call.Purge? {
      DeletedWinners(c.facts, c'.facts, CH.FactOf(l.call.tenant));
      DeletedWinners(c.events, c'.events, CH.EventOf(l.call.tenant));
    }
  }

  lemma RemovalStep(c: CH.House, d: D.Duck, l: Label, c': CH.House, d': D.Duck, cs: Contents,
                    nf: FactCount, ne: EventCount, nf': FactCount, ne': EventCount)
    requires Tracked(c, d, nf, ne, cs) && Sim(c', d', cs) && HouseStep(c, l, c') && Removal(l)
    requires Moves(d, l, d', nf, ne, nf', ne')
    ensures ExactFacts(c'.facts, d'.facts, nf') && ExactEvents(c'.events, d'.events, ne')
  {
    RemovalWinners(c, d, l, c', cs);
    RemovalKeeps(d, l);
    RemovalTracked(c, d, c', d', cs, nf, ne, nf', ne');
  }

  lemma ReprojectStep(c: CH.House, d: D.Duck, l: Label, c': CH.House, d': D.Duck, cs: Contents,
                      nf: FactCount, ne: EventCount, nf': FactCount, ne': EventCount)
    requires Tracked(c, d, nf, ne, cs) && HouseStep(c, l, c') && l.Do? && l.call.Reproject? && Admissible(c, l.call, cs)
    requires Moves(d, l, d', nf, ne, nf', ne')
    ensures ExactFacts(c'.facts, d'.facts, nf') && ExactEvents(c'.events, d'.events, ne')
  {
    var t, a, f := l.call.tenant, l.call.aggregate, l.call.transform;
    var fu, eu := PassOf(c, t, a, f, c', l.n);
    ReprojectMoves(d, l, d', nf, ne, nf', ne');
    PassTracked(c, d, FactScope(t, a), EventScope(t, a), f, fu, eu, d', cs, nf, ne, nf', ne');
  }

  lemma StepTracked(c: CH.House, d: D.Duck, l: Label, c': CH.House, d': D.Duck, cs: Contents,
                    nf: FactCount, ne: EventCount, nf': FactCount, ne': EventCount)
    requires Tracked(c, d, nf, ne, cs) && HouseStep(c, l, c') && (l.Do? ==> Admissible(c, l.call, cs))
    requires Moves(d, l, d', nf, ne, nf', ne')
    ensures Tracked(c', d', nf', ne', cs)
  {
    StepSim(c, d, l, c', cs);
    if Removal(l) {
      RemovalStep(c, d, l, c', d', cs, nf, ne, nf', ne');
    } else if l.call.Reproject? {
      ReprojectStep(c, d, l, c', d', cs, nf, ne, nf', ne');
    } else if l.call.UpsertFacts? {
      UpsertTracked(c, d, l.call.facts, cs, nf, ne, nf', ne');
    } else {
      AppendTracked(c, d, l.call.events, cs, nf, ne, nf', ne');
    }
  }

  lemma RemovalKeeps(d: D.Duck, l: Label)
    requires Removal(l)
    ensures FactsHit(d, l) == {} && EventsHit(d, l) == {}
    ensures
      var d' := DuckStep(d, l);
      forall k :: k in d'.facts ==> k in d.facts && d'.facts[k] == d.facts[k]
  {
  }

  lemma ReprojectAdmissible(c: CH.House, d: D.Duck, l: Label, c': CH.House, d': D.Duck, cs: Contents,
                            nf: FactCount, ne: EventCount, nf': FactCount, ne': EventCount)
    requires Tracked(c, d, nf, ne, cs) && HouseStep(c, l, c') && l.Do? && l.call.Reproject?
    requires Within(nf, ne) && Moves(d, l, d', nf, ne, nf', ne')
    ensures Admissible(c, l.call, cs) <==> Within(nf', ne')
  {
    var t, a, f := l.call.tenant, l.call.aggregate, l.call.transform;
    var fu, eu := PassOf(c, t, a, f, c', l.n);
    ReprojectMoves(d, l, d', nf, ne, nf', ne');
    RoomIff(c, d, FactScope(t, a), EventScope(t, a), f, fu, eu, d', cs, nf, ne, nf', ne');
  }

  /** One call more: admissible exactly when its input is fixed and no rewrite count runs over. */
  lemma AdmissibleNext(c: CH.House, d: D.Duck, l: Label, c': CH.House, d': D.Duck, cs: Contents,
                       nf: FactCount, ne: EventCount, nf': FactCount, ne': EventCount)
    requires Tracked(c, d, nf, ne, cs) && HouseStep(c, l, c') && Within(nf, ne) && Moves(d, l, d', nf, ne, nf', ne')
    ensures (l.Do? ==> Admissible(c, l.call, cs)) <==> InputFixed(l, cs) && Within(nf', ne')
  {
    if l.Do? && l.call.Reproject? { ReprojectAdmissible(c, d, l, c', d', cs, nf, ne, nf', ne'); }
  }

  // ---- along a run ----

  ghost predicate AdmissibleTo(hs: seq<CH.House>, ls: seq<Label>, cs: Contents, i: nat)
    requires i <= |ls| < |hs|
  {
    forall j {:trigger Admissible(hs[j], ls[j].call, cs)} :: 0 <= j < i && ls[j].Do? ==> Admissible(hs[j], ls[j].call, cs)
  }

  ghost predicate WithinSlots(ls: seq<Label>) {
    Within(FactsCounted(ls), EventsCounted(ls))
  }

  /** What a producer can check: fixed inputs, and at no point too many rewrites of one fact
      version or one event. */
  ghost predicate FineTo(ls: seq<Label>, cs: Contents, i: nat)
    requires i <= |ls|
  {
    && (forall j {:trigger InputFixed(ls[j], cs)} :: 0 <= j < i ==> InputFixed(ls[j], cs))
    && (forall j {:trigger WithinSlots(ls[..j])} :: 0 <= j <= i ==> WithinSlots(ls[..j]))
  }

  ghost predicate TrackedAt(c: CH.House, ls: seq<Label>, cs: Contents) {
    Tracked(c, DuckAfter(ls), FactsCounted(ls), EventsCounted(ls), cs)
  }

  lemma StartTracked(cs: Contents)
    ensures TrackedAt(EMPTY_HOUSE, [], cs) && WithinSlots([])
  {
  }

  lemma TrackedNext(c: CH.House, ls: seq<Label>, l: Label, c': CH.House, cs: Contents)
    requires TrackedAt(c, ls, cs) && HouseStep(c, l, c') && WithinSlots(ls)
    ensures (l.Do? ==> Admissible(c, l.call, cs)) <==> InputFixed(l, cs) && WithinSlots(ls + [l])
    ensures (l.Do? ==> Admissible(c, l.call, cs)) ==> TrackedAt(c', ls + [l], cs)
  {
    var d, d', nf, ne, nf', ne' :=
      DuckAfter(ls), DuckAfter(ls + [l]), FactsCounted(ls), EventsCounted(ls), FactsCounted(ls + [l]), EventsCounted(ls + [l]);
    CountsMove(ls, l);
    AdmissibleNext(c, d, l, c', d', cs, nf, ne, nf', ne');
    if l.Do? ==> Admissible(c, l.call, cs) { StepTracked(c, d, l, c', d', cs, nf, ne, nf', ne'); }
  }

  lemma {:induction false} TrackedTo(hs: seq<CH.House>, ls: seq<Label>, cs: Contents, i: nat)
    requires HouseRun(hs, ls) && i <= |ls|
    ensures AdmissibleTo(hs, ls, cs, i) <==> FineTo(ls, cs, i)
    ensures AdmissibleTo(hs, ls, cs, i) ==> TrackedAt(hs[i], ls[..i], cs)
  {
    if i == 0 {
      assert ls[..0] == [];
      StartTracked(cs);
    } else {
      var p := i - 1;
      TrackedTo(hs, ls, cs, p);
      TrackedSplit(hs, ls, cs, p);
      assert HouseStep(hs[p], ls[p], hs[p + 1]) && ls[..i] == ls[..p] + [ls[p]];
      if AdmissibleTo(hs, ls, cs, p) {
        assert WithinSlots(ls[..p]);
        TrackedNext(hs[p], ls[..p], ls[p], hs[i], cs);
      }
    }
  }

  lemma TrackedSplit(hs: seq<CH.House>, ls: seq<Label>, cs: Contents, p: nat)
    requires p < |ls| < |hs|
    ensures AdmissibleTo(hs, ls, cs, p + 1) <==>
              AdmissibleTo(hs, ls, cs, p) && (ls[p].Do? ==> Admissible(hs[p], ls[p].call, cs))
    ensures FineTo(ls, cs, p + 1) <==> FineTo(ls, cs, p) && InputFixed(ls[p], cs) && WithinSlots(ls[..p + 1])
  {
  }

  /** Every call of a run is admissible, and so the sinks agree, exactly when the inputs are
      fixed by (key, version), versions lie below 2^44, and at no point has one version of a
      fact been rewritten 2^20 times (one event 2^64 times) since it was last absent. */
  lemma AdmissibleIff(hs: seq<CH.House>, ls: seq<Label>, cs: Contents)
    requires HouseRun(hs, ls)
    ensures AllAdmissible(hs, ls, cs) <==> FineTo(ls, cs, |ls|)
  {
    TrackedTo(hs, ls, cs, |ls|);
  }

  /** The sinks agree after every prefix of every run, and so does each returned count. */
  lemma SinksAgree(hs: seq<CH.House>, ls: seq<Label>, cs: Contents)
    requires HouseRun(hs, ls) && AllAdmissible(hs, ls, cs)
    ensures forall i :: 0 <= i <= |ls| ==> Sim(hs[i], DuckAfter(ls[..i]), cs)
    ensures forall i :: 0 <= i < |ls| && ls[i].Do? ==> ls[i].n == D.Step(DuckAfter(ls[..i]), ls[i].call).1
  {
    forall i | 0 <= i <= |ls| ensures Sim(hs[i], DuckAfter(ls[..i]), cs) {
      TrackedTo(hs, ls, cs, i);
    }
    forall i | 0 <= i < |ls| && ls[i].Do? ensures ls[i].n == D.Step(DuckAfter(ls[..i]), ls[i].call).1 {
      assert HouseStep(hs[i], ls[i], hs[i + 1]) && Admissible(hs[i], ls[i].call, cs);
      StepSim(hs[i], DuckAfter(ls[..i]), ls[i], hs[i + 1], cs);
    }
  }

  // ---- a coarser bound ----

  function Wear(l: Label): nat {
    if l.Do? && l.call.Reproject? then 1 else 0
  }

  function Reprojections(ls: seq<Label>): nat {
    if ls == [] then 0
    else Reprojections(ls[..|ls| - 1]) + Wear(ls[|ls| - 1])
  }

  lemma RewritesStep(ls: seq<Label>, l: Label)
    requires forall k, v :: FactRewrites(ls, k, v) <= Reprojections(ls)
    requires forall k :: EventRewrites(ls, k) <= Reprojections(ls)
    ensures forall k, v :: FactRewrites(ls + [l], k, v) <= Reprojections(ls + [l])
    ensures forall k :: EventRewrites(ls + [l], k) <= Reprojections(ls + [l])
  {
    assert (ls + [l])[..|ls|] == ls;
  }

  lemma {:induction false} RewritesBounded(ls: seq<Label>)
    ensures forall k, v :: FactRewrites(ls, k, v) <= Reprojections(ls)
    ensures forall k :: EventRewrites(ls, k) <= Reprojections(ls)
  {
    if ls != [] {
      var n := |ls| - 1;
      RewritesBounded(ls[..n]);
      assert ls == ls[..n] + [ls[n]];
      RewritesStep(ls[..n], ls[n]);
    }
  }

  lemma {:induction false} ReprojectionsGrow(ls: seq<Label>, i: nat)
    requires i <= |ls|
    ensures Reprojections(ls[..i]) <= Reprojections(ls)
  {
    if i == |ls| {
      assert ls[..i] == ls;
    } else {
      ReprojectionsGrow(ls[..|ls| - 1], i);
      assert ls[..|ls| - 1][..i] == ls[..i];
    }
  }

  /** In particular a run with fewer than 2^20 reprojections meets every condition of SinksAgree. */
  lemma FewReprojectionsSuffice(hs: seq<CH.House>, ls: seq<Label>, cs: Contents)
    requires HouseRun(hs, ls) && InputsFixed(ls, cs) && Reprojections(ls) < CH.SLOTS
    ensures AllAdmissible(hs, ls, cs)
    ensures Sim(hs[|ls|], DuckAfter(ls), cs)
  {
    forall j | 0 <= j <= |ls| ensures WithinSlots(ls[..j]) {
      ReprojectionsGrow(ls, j);
      RewritesBounded(ls[..j]);
    }
    AdmissibleIff(hs, ls, cs);
    SinksAgree(hs, ls, cs);
    assert ls[..|ls|] == ls;
  }
}
