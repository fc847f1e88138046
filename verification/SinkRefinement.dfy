/** The ClickHouse sink refines the DuckDB sink: every admissible call and every background
    merge keeps what readers of the two see the same, and callers get the same counts. */
module SinkRefinement {
  import opened AnalyticsModel
  import opened MergeTree
  import CH = ClickHouseSink
  import D = DuckSink
  import opened Wrappers

  /** The producer's promise: what (key, version) says is fixed for ever. */
  datatype Contents = Contents(fact: (Key, int) -> FactDoc, event: EventKey -> EventDoc)

  /** How far a fact row's rank lies above the start of its version's band. */
  function Slot(r: Row<Key, FactDoc>): int {
    r.rank - r.value.meta.version * CH.SLOTS
  }

  /** The key invariant of the packed word: every fact row's rank lies in its version's
      band (`_dedup >> 20 == version`, see ReadsAgree), and a row that was never
      rewritten holds the original content. */
  ghost predicate FactBand(t: Table<Key, FactDoc>, cs: Contents) {
    forall r :: r in t ==>
      && 0 <= r.value.meta.version < CH.MAX_VERSION
      && 0 <= Slot(r) < CH.SLOTS
      && (Slot(r) == 0 ==> r.value == cs.fact(r.key, r.value.meta.version))
  }

  ghost predicate EventBand(t: Table<EventKey, EventDoc>, cs: Contents) {
    forall r :: r in t ==>
      && 0 <= r.rank < CH.WORD
      && r.value.meta == cs.event(r.key).meta
      && (r.rank == 0 ==> r.value == cs.event(r.key))
  }

  ghost predicate MarkBand(t: Table<Key, int>) {
    forall r :: r in t ==> r.rank == r.value
  }

  ghost predicate FactSim(t: Table<Key, FactDoc>, m: map<Key, FactDoc>, cs: Contents) {
    Shows(t, m) && Coherent(t) && FactBand(t, cs)
  }

  ghost predicate EventSim(t: Table<EventKey, EventDoc>, m: map<EventKey, EventDoc>, cs: Contents) {
    Shows(t, m) && Coherent(t) && EventBand(t, cs)
  }

  ghost predicate MarkSim(t: Table<Key, int>, m: map<Key, int>) {
    Shows(t, m) && Coherent(t) && MarkBand(t)
  }

  /** The simulation: each ClickHouse table shows the DuckDB table. */
  ghost predicate Sim(c: CH.House, d: D.Duck, cs: Contents) {
    FactSim(c.facts, d.facts, cs) && EventSim(c.events, d.events, cs) && MarkSim(c.applied, d.applied)
  }

  // ---- what a call must satisfy ----

  ghost predicate FactInput(f: Fact, cs: Contents) {
    0 <= f.version < CH.MAX_VERSION && f.Stored() == cs.fact(f.key, f.version)
  }

  ghost predicate EventInput(e: Event, cs: Contents) {
    e.Stored() == cs.event(e.id)
  }

  /** No winner the pass will rewrite has used up its reprojection slots. */
  ghost predicate FactRoom(t: Table<Key, FactDoc>, scope: Key -> bool, f: Transform) {
    forall r :: Wins(t, r) && scope(r.key) && f(r.value.payload) != Some(r.value.payload) ==>
                  Slot(r) + 1 < CH.SLOTS
  }

  ghost predicate EventRoom(t: Table<EventKey, EventDoc>, scope: EventKey -> bool, f: Transform) {
    forall r :: Wins(t, r) && scope(r.key) && f(r.value.payload) != Some(r.value.payload) ==> r.rank + 1 < CH.WORD
  }

  ghost predicate Admissible(c: CH.House, call: Call, cs: Contents) {
    match call
    case UpsertFacts(fs) => forall i :: 0 <= i < |fs| ==> FactInput(fs[i], cs)
    case AppendEvents(es) => forall i :: 0 <= i < |es| ==> EventInput(es[i], cs)
    case Reproject(t, a, f) => FactRoom(c.facts, FactScope(t, a), f) && EventRoom(c.events, EventScope(t, a), f)
    case _ => true
  }

  // ---- one table at a time ----

  lemma PackShifts(v: int)
    requires 0 <= v < CH.MAX_VERSION
    ensures CH.PackDedup(v) == v * CH.SLOTS
  {
  }

  lemma UpsertOne(t: Table<Key, FactDoc>, m: map<Key, FactDoc>, f: Fact, cs: Contents)
    requires FactSim(t, m, cs) && FactInput(f, cs)
    ensures FactSim(t + multiset{CH.FactRow(f)}, D.GateFact(m, f), cs)
  {
    var r := CH.FactRow(f);
    PackShifts(f.version);
    SameRankSameFact(t, f, cs);
    if f.key in m {
      var w := WinnerExists(t, f.key);
      if f.version <= w.value.meta.version {
        assert r.rank < w.rank || r == w;
        InsertBelow(t, r, m, w);
      } else {
        assert w.rank < r.rank;
        InsertOnTop(t, r, m);
      }
    } else {
      InsertOnTop(t, r, m);
    }
    assert forall s :: s in t + multiset{r} ==> s in t || s == r;
  }

  /** A stored row that ties with a fresh one was never rewritten, so it is a copy of it. */
  lemma SameRankSameFact(t: Table<Key, FactDoc>, f: Fact, cs: Contents)
    requires FactBand(t, cs) && FactInput(f, cs)
    ensures forall s :: s in t && s.key == f.key && s.rank == CH.FactRow(f).rank ==> s == CH.FactRow(f)
  {
    PackShifts(f.version);
  }

  lemma {:induction false} UpsertAll(t: Table<Key, FactDoc>, m: map<Key, FactDoc>, fs: seq<Fact>, cs: Contents)
    requires FactSim(t, m, cs)
    requires forall i :: 0 <= i < |fs| ==> FactInput(fs[i], cs)
    ensures FactSim(t + CH.Rows(CH.FactRow, fs), D.GateFacts(m, fs), cs)
  {
    if fs == [] {
      assert t + CH.Rows(CH.FactRow, fs) == t;
    } else {
      var pre, f := fs[..|fs| - 1], fs[|fs| - 1];
      UpsertAll(t, m, pre, cs);
      UpsertOne(t + CH.Rows(CH.FactRow, pre), D.GateFacts(m, pre), f, cs);
      assert t + CH.Rows(CH.FactRow, fs) == t + CH.Rows(CH.FactRow, pre) + multiset{CH.FactRow(f)};
    }
  }

  lemma AppendOne(t: Table<EventKey, EventDoc>, m: map<EventKey, EventDoc>, e: Event, cs: Contents)
    requires EventSim(t, m, cs) && EventInput(e, cs)
    ensures EventSim(t + multiset{CH.EventRow(e)}, D.AddEvent(m, e), cs)
  {
    var r := CH.EventRow(e);
    assert forall s :: s in t + multiset{r} ==> s in t || s == r;
    if e.id in m {
      var w := WinnerExists(t, e.id);
      InsertBelow(t, r, m, w);
    } else {
      InsertOnTop(t, r, m);
    }
  }

  lemma {:induction false} AppendAll(t: Table<EventKey, EventDoc>, m: map<EventKey, EventDoc>, es: seq<Event>, cs: Contents)
    requires EventSim(t, m, cs)
    requires forall i :: 0 <= i < |es| ==> EventInput(es[i], cs)
    ensures EventSim(t + CH.Rows(CH.EventRow, es), D.AddEvents(m, es), cs)
  {
    if es == [] {
      assert t + CH.Rows(CH.EventRow, es) == t;
    } else {
      var pre, e := es[..|es| - 1], es[|es| - 1];
      AppendAll(t, m, pre, cs);
      AppendOne(t + CH.Rows(CH.EventRow, pre), D.AddEvents(m, pre), e, cs);
      assert t + CH.Rows(CH.EventRow, es) == t + CH.Rows(CH.EventRow, pre) + multiset{CH.EventRow(e)};
    }
  }

  lemma MarkOne(t: Table<Key, int>, m: map<Key, int>, w: Mark)
    requires MarkSim(t, m)
    ensures MarkSim(t + multiset{CH.MarkRow(w)}, D.GateMark(m, w))
  {
    var r := CH.MarkRow(w);
    assert forall s :: s in t + multiset{r} ==> s in t || s == r;
    if w.key in m {
      var x := WinnerExists(t, w.key);
      assert x in t && x.rank == x.value == m[w.key];
      if w.version <= x.value {
        InsertBelow(t, r, m, x);
      } else {
        InsertOnTop(t, r, m);
      }
    } else {
      InsertOnTop(t, r, m);
    }
  }

  lemma {:induction false} MarkAll(t: Table<Key, int>, m: map<Key, int>, ws: seq<Mark>)
    requires MarkSim(t, m)
    ensures MarkSim(t + CH.Rows(CH.MarkRow, ws), D.GateMarks(m, ws))
  {
    if ws == [] {
      assert t + CH.Rows(CH.MarkRow, ws) == t;
    } else {
      var pre, w := ws[..|ws| - 1], ws[|ws| - 1];
      MarkAll(t, m, pre);
      MarkOne(t + CH.Rows(CH.MarkRow, pre), D.GateMarks(m, pre), w);
      assert t + CH.Rows(CH.MarkRow, ws) == t + CH.Rows(CH.MarkRow, pre) + multiset{CH.MarkRow(w)};
    }
  }

  /** One rewrite: ties being coherent, the row re-inserts the value the map shows,
      transformed, directly above the winner `w` - provided the rank does not wrap. */
  lemma RewriteOne<K(!new), M(!new)>(t: Table<K, Doc<M>>, m: map<K, Doc<M>>, f: Transform, r: Row<K, Doc<M>>)
    returns (w: Row<K, Doc<M>>)
    requires Shows(t, m) && Coherent(t) && CH.Rewrites(t, f, r)
    ensures r.key in m && f(m[r.key].payload).Some? && r.value == D.Rewrite(m[r.key], f) != m[r.key]
    ensures Wins(t, w) && w.key == r.key && w.value == m[r.key] && r.rank == CH.Next(w.rank)
  {
    var p, q :|
      && Wins(t, p) && Wins(t, q) && p.key == r.key && q.key == r.key
      && f(p.value.payload).Some? && f(p.value.payload).value != p.value.payload
      && r == Row(r.key, Doc(f(p.value.payload).value, q.value.meta), CH.Next(p.rank));
    assert p == q;
    assert p.key in Keys(t);
    w := p;
  }

  /** No winner in scope that the transform changes has the last rank of its word. */
  ghost predicate NoWrap<K(!new), M(!new)>(t: Table<K, Doc<M>>, scope: K -> bool, f: Transform) {
    forall r :: Wins(t, r) && scope(r.key) && f(r.value.payload) != Some(r.value.payload) ==>
                  r.rank + 1 != CH.WORD
  }

  lemma RewrittenKeys<K(!new), M(!new)>(
    t: Table<K, Doc<M>>, m: map<K, Doc<M>>, scope: K -> bool, f: Transform, up: map<K, Row<K, Doc<M>>>)
    requires Shows(t, m) && Coherent(t) && CH.RewriteSet(t, scope, f, up)
    ensures up.Keys == D.Altered(m, scope, f) && D.Transforms(m, scope, f)
    ensures D.Rewritten(m, scope, f) == map k | k in m :: if k in up then up[k].value else m[k]
  {
    forall k | k in m
      ensures k in up ==> scope(k) && D.Rewrite(m[k], f) == up[k].value != m[k]
      ensures scope(k) ==> f(m[k].payload).Some? && (k !in up ==> D.Rewrite(m[k], f) == m[k])
    {
      PassAt(t, m, scope, f, up, k);
    }
    forall k | k in up ensures k in m { var w := RewriteOne(t, m, f, up[k]); }
  }

  lemma PassAt<K(!new), M(!new)>(
    t: Table<K, Doc<M>>, m: map<K, Doc<M>>, scope: K -> bool, f: Transform, up: map<K, Row<K, Doc<M>>>, k: K)
    requires Shows(t, m) && Coherent(t) && CH.RewriteSet(t, scope, f, up) && k in m
    ensures k in up ==> scope(k) && f(m[k].payload).Some? && D.Rewrite(m[k], f) == up[k].value != m[k]
    ensures k !in up && scope(k) ==> f(m[k].payload) == Some(m[k].payload)
  {
    if k in up {
      assert CH.Rewrites(t, f, up[k]);
      var w := RewriteOne(t, m, f, up[k]);
    } else if scope(k) {
      assert CH.Settled(t, f, k);
    }
  }

  lemma RewriteTops<K(!new), M(!new)>(t: Table<K, Doc<M>>, m: map<K, Doc<M>>, scope: K -> bool, f: Transform, r: Row<K, Doc<M>>)
    requires Shows(t, m) && Coherent(t) && CH.Rewrites(t, f, r) && scope(r.key) && NoWrap(t, scope, f)
    ensures Tops(t, r)
  {
    var w := RewriteOne(t, m, f, r);
    assert f(w.value.payload) != Some(w.value.payload);
  }

  lemma PassRaises<K(!new), M(!new)>(
    t: Table<K, Doc<M>>, m: map<K, Doc<M>>, scope: K -> bool, f: Transform, up: map<K, Row<K, Doc<M>>>)
    requires Shows(t, m) && Coherent(t) && CH.RewriteSet(t, scope, f, up) && NoWrap(t, scope, f)
    ensures Raised(t, up)
  {
    forall k | k in up ensures up[k].key == k && Tops(t, up[k]) {
      assert CH.Rewrites(t, f, up[k]);
      RewriteTops(t, m, scope, f, up[k]);
    }
  }

  /** A pass over one table shows the transformed payloads and returns their number. */
  lemma ReprojectTable<K(!new), M(!new)>(
    t: Table<K, Doc<M>>, m: map<K, Doc<M>>, scope: K -> bool, f: Transform, up: map<K, Row<K, Doc<M>>>)
    requires Shows(t, m) && Coherent(t) && CH.RewriteSet(t, scope, f, up) && NoWrap(t, scope, f)
    ensures Shows(t + multiset(up.Values), D.Rewritten(m, scope, f)) && Coherent(t + multiset(up.Values))
    ensures |up| == |D.Altered(m, scope, f)| && D.Transforms(m, scope, f)
  {
    RewrittenKeys(t, m, scope, f, up);
    PassRaises(t, m, scope, f, up);
    RaiseAll(t, up, m);
    assert |up.Keys| == |up|;
  }

  lemma RewrittenFactStaysInBand(t: Table<Key, FactDoc>, m: map<Key, FactDoc>, scope: Key -> bool, f: Transform,
                                 r: Row<Key, FactDoc>, cs: Contents)
    requires FactSim(t, m, cs) && FactRoom(t, scope, f) && scope(r.key) && CH.Rewrites(t, f, r)
    ensures 0 <= r.value.meta.version < CH.MAX_VERSION && 0 < Slot(r) < CH.SLOTS
  {
    var w := RewriteOne(t, m, f, r);
  }

  lemma ReprojectFacts(t: Table<Key, FactDoc>, m: map<Key, FactDoc>, scope: Key -> bool, f: Transform,
                       up: map<Key, Row<Key, FactDoc>>, cs: Contents)
    requires FactSim(t, m, cs) && CH.RewriteSet(t, scope, f, up) && FactRoom(t, scope, f)
    ensures FactSim(t + multiset(up.Values), D.Rewritten(m, scope, f), cs)
    ensures |up| == |D.Altered(m, scope, f)| && D.Transforms(m, scope, f)
  {
    assert NoWrap(t, scope, f);
    ReprojectTable(t, m, scope, f, up);
    forall r | r in up.Values ensures 0 <= r.value.meta.version < CH.MAX_VERSION && 0 < Slot(r) < CH.SLOTS {
      var k :| k in up && up[k] == r;
      assert CH.Rewrites(t, f, up[k]);
      RewrittenFactStaysInBand(t, m, scope, f, r, cs);
    }
    assert forall r :: r in t + multiset(up.Values) ==> r in t || r in up.Values;
  }

  lemma RewrittenEventStaysInBand(t: Table<EventKey, EventDoc>, m: map<EventKey, EventDoc>, scope: EventKey -> bool,
                                  f: Transform, r: Row<EventKey, EventDoc>, cs: Contents)
    requires EventSim(t, m, cs) && EventRoom(t, scope, f) && scope(r.key) && CH.Rewrites(t, f, r)
    ensures 0 < r.rank < CH.WORD && r.value.meta == cs.event(r.key).meta
  {
    var w := RewriteOne(t, m, f, r);
  }

  lemma ReprojectEvents(t: Table<EventKey, EventDoc>, m: map<EventKey, EventDoc>, scope: EventKey -> bool, f: Transform,
                        up: map<EventKey, Row<EventKey, EventDoc>>, cs: Contents)
    requires EventSim(t, m, cs) && CH.RewriteSet(t, scope, f, up) && EventRoom(t, scope, f)
    ensures EventSim(t + multiset(up.Values), D.Rewritten(m, scope, f), cs)
    ensures |up| == |D.Altered(m, scope, f)| && D.Transforms(m, scope, f)
  {
    assert NoWrap(t, scope, f);
    ReprojectTable(t, m, scope, f, up);
    forall r | r in up.Values ensures 0 < r.rank < CH.WORD && r.value.meta == cs.event(r.key).meta {
      var k :| k in up && up[k] == r;
      assert CH.Rewrites(t, f, up[k]);
      RewrittenEventStaysInBand(t, m, scope, f, r, cs);
    }
    assert forall r :: r in t + multiset(up.Values) ==> r in t || r in up.Values;
  }

  // ---- one call ----

  /** Every admissible ClickHouse call is matched by the DuckDB call: same visible data
      afterwards and the same returned count. */
  lemma StepRefines(c: CH.House, d: D.Duck, call: Call, c': CH.House, n: int, cs: Contents)
    requires Sim(c, d, cs) && Admissible(c, call, cs) && CH.Step(c, call, c', n)
    ensures Sim(c', D.Step(d, call).0, cs) && n == D.Step(d, call).1
  {
    match call
    case UpsertFacts(fs) => UpsertAll(c.facts, d.facts, fs, cs);
    case AppendEvents(es) => AppendAll(c.events, d.events, es, cs);
    case SetWatermark(ws) => MarkAll(c.applied, d.applied, ws);
    case Reproject(t, a, f) => ReprojectRefines(c, d, t, a, f, c', n, cs);
    case Prune(cutoff) => PruneEvents(c.events, c'.events, d.events, cutoff, cs);
    case Purge(t) =>
      PurgeFacts(c.facts, c'.facts, d.facts, t, cs);
      PurgeEvents(c.events, c'.events, d.events, t, cs);
      PurgeMarks(c.applied, c'.applied, d.applied, t);
  }

  lemma ReprojectRefines(c: CH.House, d: D.Duck, t: string, a: string, f: Transform, c': CH.House, n: int, cs: Contents)
    requires Sim(c, d, cs) && Admissible(c, Reproject(t, a, f), cs) && CH.Step(c, Reproject(t, a, f), c', n)
    ensures Sim(c', D.Step(d, Reproject(t, a, f)).0, cs) && n == D.Step(d, Reproject(t, a, f)).1
    ensures D.Transforms(d.facts, FactScope(t, a), f) && D.Transforms(d.events, EventScope(t, a), f)
  {
    var fu, eu :|
      && CH.RewriteSet(c.facts, FactScope(t, a), f, fu)
      && CH.RewriteSet(c.events, EventScope(t, a), f, eu)
      && c' == c.(facts := c.facts + multiset(fu.Values), events := c.events + multiset(eu.Values))
      && n == |fu| + |eu|;
    ReprojectFacts(c.facts, d.facts, FactScope(t, a), f, fu, cs);
    ReprojectEvents(c.events, d.events, EventScope(t, a), f, eu, cs);
  }

  /** What readers of one table see after a pass: per key a winner that is the old winner's
      document, with the payload transformed unless the row lies elsewhere. */
  ghost predicate ShowsReshaped<K(!new), M(!new)>(
    t: Table<K, Doc<M>>, t': Table<K, Doc<M>>, elsewhere: K -> bool, f: Transform)
  {
    && Keys(t') == Keys(t)
    && forall r, r' :: Wins(t, r) && Wins(t', r') && r.key == r'.key ==>
         if elsewhere(r.key) then r'.value == r.value
         else f(r.value.payload).Some? && r'.value == Doc(f(r.value.payload).value, r.value.meta)
  }

  /** The keys whose winners that changes. */
  ghost function RewordedWinners<K(!new), M(!new)>(t: Table<K, Doc<M>>, elsewhere: K -> bool, f: Transform): set<K> {
    set r | r in t && Wins(t, r) && !elsewhere(r.key) && f(r.value.payload) != Some(r.value.payload) :: r.key
  }

  lemma ReshapedShows<K(!new), M(!new)>(
    t: Table<K, Doc<M>>, m: map<K, Doc<M>>, t': Table<K, Doc<M>>, m': map<K, Doc<M>>, elsewhere: K -> bool, f: Transform)
    requires Shows(t, m) && Shows(t', m') && D.Reshaped(m, m', elsewhere, f)
    ensures ShowsReshaped(t, t', elsewhere, f) && RewordedWinners(t, elsewhere, f) == D.Reworded(m, elsewhere, f)
  {
    forall r, r' | Wins(t, r) && Wins(t', r') && r.key == r'.key
      ensures if elsewhere(r.key) then r'.value == r.value
              else f(r.value.payload).Some? && r'.value == Doc(f(r.value.payload).value, r.value.meta)
    {
      assert r.key in Keys(t);
    }
    forall k | k in D.Reworded(m, elsewhere, f) ensures k in RewordedWinners(t, elsewhere, f) {
      var w := WinnerExists(t, k);
    }
    forall k | k in RewordedWinners(t, elsewhere, f) ensures k in D.Reworded(m, elsewhere, f) {
      var r :| r in t && Wins(t, r) && !elsewhere(r.key) && f(r.value.payload) != Some(r.value.payload) && r.key == k;
      assert r.key in Keys(t);
    }
  }

  /** A successful pass over the winners: what D.Reprojected says of the DuckDB rows. */
  ghost predicate ReprojectedWinners(c: CH.House, c': CH.House, t: string, a: string, f: Transform, n: int) {
    var fs, es := (k: Key) => Elsewhere(k, t, a), (k: EventKey) => Elsewhere(k.key, t, a);
    && ShowsReshaped(c.facts, c'.facts, fs, f) && ShowsReshaped(c.events, c'.events, es, f) && c'.applied == c.applied
    && n == |RewordedWinners(c.facts, fs, f)| + |RewordedWinners(c.events, es, f)|
  }

  lemma WinnersFollow(c: CH.House, d: D.Duck, c': CH.House, d': D.Duck, t: string, a: string, f: Transform, n: int)
    requires Shows(c.facts, d.facts) && Shows(c.events, d.events) && Shows(c'.facts, d'.facts) && Shows(c'.events, d'.events)
    requires D.Reprojected(d, d', t, a, f, n) && c'.applied == c.applied
    ensures ReprojectedWinners(c, c', t, a, f, n)
  {
    ReshapedShows(c.facts, d.facts, c'.facts, d'.facts, (k: Key) => Elsewhere(k, t, a), f);
    ReshapedShows(c.events, d.events, c'.events, d'.events, (k: EventKey) => Elsewhere(k.key, t, a), f);
  }

  lemma TransformsAccepts(d: D.Duck, t: string, a: string, f: Transform)
    requires D.Transforms(d.facts, FactScope(t, a), f) && D.Transforms(d.events, EventScope(t, a), f)
    ensures D.Accepts(d, t, a, f)
  {
  }

  /** What an admissible ClickHouse reprojection reaches: the winners of the tenant's rows, of one
      aggregate if one is named, and it counts the keys it changes. */
  lemma ReprojectReaches(c: CH.House, d: D.Duck, t: string, a: string, f: Transform, c': CH.House, n: int, cs: Contents)
    requires Sim(c, d, cs) && Admissible(c, Reproject(t, a, f), cs) && CH.Step(c, Reproject(t, a, f), c', n)
    ensures ReprojectedWinners(c, c', t, a, f, n)
  {
    ReprojectRefines(c, d, t, a, f, c', n, cs);
    TransformsAccepts(d, t, a, f);
    D.ReprojectReaches(d, t, a, f);
    WinnersFollow(c, d, c', D.Step(d, Reproject(t, a, f)).0, t, a, f, n);
  }

  /** All rows of an event share its commit time, so pruning never splits a key. */
  lemma PruneEvents(t: Table<EventKey, EventDoc>, t': Table<EventKey, EventDoc>, m: map<EventKey, EventDoc>,
                    cutoff: int, cs: Contents)
    requires EventSim(t, m, cs) && Deleted(t, t', CH.StaleEvent(cutoff))
    ensures EventSim(t', Without(m, D.Stale(m, cutoff)), cs)
    ensures Hit(t, CH.StaleEvent(cutoff)) == Matching(m, D.Stale(m, cutoff))
  {
    forall r | r in t ensures CH.StaleEvent(cutoff)(r) == D.Stale(m, cutoff)(r.key) {
      var w := WinnerExists(t, r.key);
    }
    DeleteKeys(t, t', CH.StaleEvent(cutoff), D.Stale(m, cutoff), m);
    assert forall r :: r in t' ==> r in t;
  }

  lemma PurgeFacts(t: Table<Key, FactDoc>, t': Table<Key, FactDoc>, m: map<Key, FactDoc>, tenant: string, cs: Contents)
    requires FactSim(t, m, cs) && Deleted(t, t', CH.FactOf(tenant))
    ensures FactSim(t', Without(m, KeyOf(tenant)), cs)
    ensures Hit(t, CH.FactOf(tenant)) == Matching(m, KeyOf(tenant))
  {
    DeleteKeys(t, t', CH.FactOf(tenant), KeyOf(tenant), m);
    assert forall r :: r in t' ==> r in t;
  }

  lemma PurgeEvents(t: Table<EventKey, EventDoc>, t': Table<EventKey, EventDoc>, m: map<EventKey, EventDoc>,
                    tenant: string, cs: Contents)
    requires EventSim(t, m, cs) && Deleted(t, t', CH.EventOf(tenant))
    ensures EventSim(t', Without(m, EventKeyOf(tenant)), cs)
    ensures Hit(t, CH.EventOf(tenant)) == Matching(m, EventKeyOf(tenant))
  {
    DeleteKeys(t, t', CH.EventOf(tenant), EventKeyOf(tenant), m);
    assert forall r :: r in t' ==> r in t;
  }

  lemma PurgeMarks(t: Table<Key, int>, t': Table<Key, int>, m: map<Key, int>, tenant: string)
    requires MarkSim(t, m) && Deleted(t, t', CH.MarkOf(tenant))
    ensures MarkSim(t', Without(m, KeyOf(tenant)))
    ensures Hit(t, CH.MarkOf(tenant)) == Matching(m, KeyOf(tenant))
  {
    DeleteKeys(t, t', CH.MarkOf(tenant), KeyOf(tenant), m);
    assert forall r :: r in t' ==> r in t;
  }

  lemma CompactionIsInvisible(c: CH.House, d: D.Duck, c': CH.House, cs: Contents)
    requires Sim(c, d, cs) && CH.Compacted(c, c')
    ensures Sim(c', d, cs)
  {
    MergeKeepsView(c.facts, c'.facts, d.facts);
    MergeKeepsView(c.events, c'.events, d.events);
    MergeKeepsView(c.applied, c'.applied, d.applied);
    assert forall r :: r in c'.facts ==> r in c.facts;
    assert forall r :: r in c'.events ==> r in c.events;
    assert forall r :: r in c'.applied ==> r in c.applied;
  }

  /** In agreeing states every read agrees, whichever row a tie-breaking argMax picks. */
  lemma ReadsAgree(c: CH.House, d: D.Duck, cs: Contents)
    requires Sim(c, d, cs)
    ensures Keys(c.facts) == d.facts.Keys && forall r :: Wins(c.facts, r) ==> r.value == d.facts[r.key]
    ensures Keys(c.events) == d.events.Keys && forall r :: Wins(c.events, r) ==> r.value == d.events[r.key]
    ensures Keys(c.applied) == d.applied.Keys
    ensures forall k, v :: CH.IsWatermark(c.applied, k, v) <==> v == D.Watermark(d, k)
    ensures forall r :: r in c.facts ==> r.rank / CH.SLOTS == r.value.meta.version
  {
    forall k | k in Keys(c.applied) ensures CH.IsWatermark(c.applied, k, d.applied[k]) {
      var w := WinnerExists(c.applied, k);
    }
  }

  /** The bound is sharp: rewrite a fact that has used its last slot and the next domain
      version no longer outranks it - the stale row ties and may win every read. */
  lemma LastSlotBreaks(t: Table<Key, FactDoc>, m: map<Key, FactDoc>, w: Row<Key, FactDoc>, p: string, f: Fact, cs: Contents)
    requires FactSim(t, m, cs) && Wins(t, w) && Slot(w) == CH.SLOTS - 1
    requires f.key == w.key && f.version == w.value.meta.version + 1 < CH.MAX_VERSION
    ensures
      var stale := Row(w.key, w.value.(payload := p), CH.Next(w.rank));
      var t' := t + multiset{stale} + multiset{CH.FactRow(f)};
      && Wins(t', stale)
      && !Shows(t', D.GateFact(m[w.key := stale.value], f))
  {
    var stale := Row(w.key, w.value.(payload := p), CH.Next(w.rank));
    PackShifts(f.version);
    var t' := t + multiset{stale} + multiset{CH.FactRow(f)};
    assert forall r :: r in t' ==> r in t || r == stale || r == CH.FactRow(f);
    assert stale in t';
  }
}
