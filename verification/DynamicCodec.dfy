/** The persisted descriptor of a dynamic entity (format 1) and the "only grows" test.
    Types that differ between memory and disk only in how a string list is held take that
    list type as a parameter. JSON itself is taken as lossless. */
module DynamicCodec {
  import opened SeqFacts
  import opened Wrappers

  /** A Go slice: nil, or a list that may be empty. */
  datatype Slice = Null | Of(items: seq<string>)

  datatype Column<K> = Column(name: string, kind: K, notNull: bool, init: string)
  datatype Index<L> = Index(name: string, columns: L, unique: bool)
  datatype GraphEdge<L> = GraphEdge(
    typeField: string, sourceField: string, targetField: string, sourceLabel: string, targetLabel: string, props: L)
  datatype Edge = Edge(field: string, rel: string, target: string)
  datatype Search<L> = Search(index: string, fields: L)
  datatype Scope = Scope(name: string, field: string)
  datatype LiveSpec<L> = LiveSpec(filterable: L, sortable: L, maxWindow: int)
  datatype Cache = Cache(ttl: int, scoped: bool)
  datatype Analytics<L> = Analytics(incl: L, inclAll: bool, hash: L, excl: L)

  datatype Schema = Schema(table: string, columns: seq<Column<int>>, indexes: seq<Index<Slice>>, noTypeCheck: bool)

  /** An entity spec; `local` stands for the in-process fields that never persist. */
  datatype Spec = Spec(
    name: string, schema: Option<Schema>, graphNode: string, graphEdge: Option<GraphEdge<Slice>>, edges: seq<Edge>,
    search: Search<Slice>, subscribe: seq<Scope>, live: Option<LiveSpec<Slice>>, cache: Option<Cache>,
    analytics: Option<Analytics<Slice>>, local: string)

  /** The row; a cache's ttl is in whole seconds here, in nanoseconds in a spec. */
  datatype Persisted = Persisted(
    format: int, name: string, table: string, columns: seq<Column<string>>, indexes: seq<Index<seq<string>>>,
    noTypeCheck: bool, graphNode: string, graphEdge: Option<GraphEdge<seq<string>>>, edges: seq<Edge>,
    search: Search<seq<string>>, subscribe: seq<Scope>, live: Option<LiveSpec<seq<string>>>, cache: Option<Cache>,
    analytics: Option<Analytics<seq<string>>>)

  const FORMAT := 1
  const SECOND := 1_000_000_000
  const INT64 := 0x8000_0000_0000_0000

  // ---- pieces ----

  function Map<A, B>(f: A -> B, s: seq<A>): (r: seq<B>)
    ensures |r| == |s| && forall i :: 0 <= i < |s| ==> r[i] == f(s[i])
  {
    if s == [] then [] else Map(f, s[..|s| - 1]) + [f(s[|s| - 1])]
  }

  function MapOption<A, B>(f: A -> B, o: Option<A>): Option<B> {
    if o.Some? then Some(f(o.value)) else None
  }

  function Strs(s: Slice): seq<string> {
    if s.Null? then [] else s.items
  }

  function StrsOrNil(s: seq<string>): Slice {
    if s == [] then Null else Of(s)
  }

  const TYPE_NAMES := ["text", "int", "float", "bool", "time", "json"]

  predicate KnownType(kind: int) {
    0 <= kind < |TYPE_NAMES|
  }

  function TypeName(kind: int): string {
    if KnownType(kind) then TYPE_NAMES[kind] else ""
  }

  function FindType(s: string, n: nat): Option<int>
    requires n <= |TYPE_NAMES|
  {
    if n == 0 then None else if TYPE_NAMES[n - 1] == s then Some(n - 1) else FindType(s, n - 1)
  }

  function TypeFromName(s: string): Option<int> {
    FindType(s, |TYPE_NAMES|)
  }

  lemma NamesDistinct(i: int, j: int)
    requires KnownType(i) && KnownType(j) && TYPE_NAMES[i] == TYPE_NAMES[j]
    ensures i == j
  {
  }

  lemma {:induction false} FindTypeIs(s: string, n: nat)
    requires n <= |TYPE_NAMES|
    ensures FindType(s, n).Some? ==> 0 <= FindType(s, n).value < n && TYPE_NAMES[FindType(s, n).value] == s
    ensures forall k :: 0 <= k < n && TYPE_NAMES[k] == s ==> FindType(s, n) == Some(k)
  {
    if n > 0 {
      FindTypeIs(s, n - 1);
      forall k | 0 <= k < n && TYPE_NAMES[k] == s && TYPE_NAMES[n - 1] == s ensures k == n - 1 {
        NamesDistinct(k, n - 1);
      }
    }
  }

  /** Go's int64 division truncates toward zero; its multiplication wraps. */
  function Seconds(ttl: int): int {
    if ttl >= 0 then ttl / SECOND else -(-ttl / SECOND)
  }

  function Wrap64(x: int): int {
    (x + INT64) % (2 * INT64) - INT64
  }

  function Nanos(seconds: int): int {
    Wrap64(seconds * SECOND)
  }

  function PackColumn(c: Column<int>): Column<string> { Column(c.name, TypeName(c.kind), c.notNull, c.init) }

  function UnpackColumn(c: Column<string>): Column<int> {
    Column(c.name, if TypeFromName(c.kind).Some? then TypeFromName(c.kind).value else 0, c.notNull, c.init)
  }

  function PackIndex(x: Index<Slice>): Index<seq<string>> { Index(x.name, Strs(x.columns), x.unique) }

  function UnpackIndex(x: Index<seq<string>>): Index<Slice> { Index(x.name, StrsOrNil(x.columns), x.unique) }

  function PackEdge(g: GraphEdge<Slice>): GraphEdge<seq<string>> {
    GraphEdge(g.typeField, g.sourceField, g.targetField, g.sourceLabel, g.targetLabel, Strs(g.props))
  }

  function UnpackEdge(g: GraphEdge<seq<string>>): GraphEdge<Slice> {
    GraphEdge(g.typeField, g.sourceField, g.targetField, g.sourceLabel, g.targetLabel, StrsOrNil(g.props))
  }

  function PackLive(l: LiveSpec<Slice>): LiveSpec<seq<string>> {
    LiveSpec(Strs(l.filterable), Strs(l.sortable), l.maxWindow)
  }

  function UnpackLive(l: LiveSpec<seq<string>>): LiveSpec<Slice> {
    LiveSpec(StrsOrNil(l.filterable), StrsOrNil(l.sortable), l.maxWindow)
  }

  function PackAnalytics(a: Analytics<Slice>): Analytics<seq<string>> {
    Analytics(Strs(a.incl), a.inclAll, Strs(a.hash), Strs(a.excl))
  }

  function UnpackAnalytics(a: Analytics<seq<string>>): Analytics<Slice> {
    Analytics(StrsOrNil(a.incl), a.inclAll, StrsOrNil(a.hash), StrsOrNil(a.excl))
  }

  function PackCache(c: Cache): Cache { Cache(Seconds(c.ttl), c.scoped) }

  function UnpackCache(c: Cache): Cache { Cache(Nanos(c.ttl), c.scoped) }

  // ---- the codec ----

  predicate Encodable(s: Spec) {
    s.schema.Some? && forall i :: 0 <= i < |s.schema.value.columns| ==> KnownType(s.schema.value.columns[i].kind)
  }

  function Pack(s: Spec): Persisted
    requires s.schema.Some?
  {
    var c := s.schema.value;
    Persisted(FORMAT, s.name, c.table, Map(PackColumn, c.columns), Map(PackIndex, c.indexes), c.noTypeCheck, s.graphNode,
              MapOption(PackEdge, s.graphEdge), s.edges, Search(s.search.index, Strs(s.search.fields)), s.subscribe,
              MapOption(PackLive, s.live), MapOption(PackCache, s.cache), MapOption(PackAnalytics, s.analytics))
  }

  function Encode(s: Spec): Option<Persisted> {
    if Encodable(s) then Some(Pack(s)) else None
  }

  predicate Decodable(p: Persisted) {
    && p.format == FORMAT && p.name != "" && p.table != ""
    && forall i :: 0 <= i < |p.columns| ==> TypeFromName(p.columns[i].kind).Some?
  }

  function Unpack(p: Persisted): Spec {
    Spec(p.name, Some(Schema(p.table, Map(UnpackColumn, p.columns), Map(UnpackIndex, p.indexes), p.noTypeCheck)),
         p.graphNode, MapOption(UnpackEdge, p.graphEdge), p.edges, Search(p.search.index, StrsOrNil(p.search.fields)),
         p.subscribe, MapOption(UnpackLive, p.live), MapOption(UnpackCache, p.cache),
         MapOption(UnpackAnalytics, p.analytics), "")
  }

  function Decode(p: Persisted): Option<Spec> {
    if Decodable(p) then Some(Unpack(p)) else None
  }

  lemma SecondsFit(n: int)
    requires -INT64 <= n * SECOND < INT64
    ensures Seconds(Nanos(n)) == n
  {
    assert Nanos(n) == n * SECOND;
    if n < 0 { assert -(n * SECOND) == (-n) * SECOND; }
  }

  lemma TruncatedFits(ttl: int)
    requires -INT64 <= ttl < INT64
    ensures -INT64 <= Seconds(ttl) * SECOND < INT64
  {
  }

  /** A type and its name determine each other. */
  lemma TypeNames(kind: int, s: string)
    ensures KnownType(kind) ==> TypeFromName(TypeName(kind)) == Some(kind)
    ensures TypeFromName(s).Some? ==> KnownType(TypeFromName(s).value) && TypeName(TypeFromName(s).value) == s
  {
    FindTypeIs(s, |TYPE_NAMES|);
    FindTypeIs(TypeName(kind), |TYPE_NAMES|);
  }

  /** Out of range the wrapped product is too small to give the seconds back. */
  lemma SecondsLost(n: int)
    requires !(-INT64 <= n * SECOND < INT64)
    ensures Seconds(Nanos(n)) != n
  {
    assert -9223372036 <= Seconds(Nanos(n)) <= 9223372036;
  }

  // ---- round trips ----

  function NormalSlice(s: Slice): Slice {
    if s == Of([]) then Null else s
  }

  function NormalIndex(x: Index<Slice>): Index<Slice> { x.(columns := NormalSlice(x.columns)) }

  function NormalEdge(g: GraphEdge<Slice>): GraphEdge<Slice> { g.(props := NormalSlice(g.props)) }

  function NormalLive(l: LiveSpec<Slice>): LiveSpec<Slice> {
    l.(filterable := NormalSlice(l.filterable), sortable := NormalSlice(l.sortable))
  }

  function NormalCache(k: Cache): Cache { k.(ttl := Seconds(k.ttl) * SECOND) }

  function NormalAnalytics(a: Analytics<Slice>): Analytics<Slice> {
    a.(incl := NormalSlice(a.incl), hash := NormalSlice(a.hash), excl := NormalSlice(a.excl))
  }

  /** What survives a round trip: empty lists become nil, a ttl loses its fraction of a
      second, in-process fields are gone. */
  function Normal(s: Spec): Spec
    requires s.schema.Some?
  {
    s.(schema := Some(s.schema.value.(indexes := Map(NormalIndex, s.schema.value.indexes))),
       graphEdge := MapOption(NormalEdge, s.graphEdge),
       search := s.search.(fields := NormalSlice(s.search.fields)),
       live := MapOption(NormalLive, s.live),
       cache := MapOption(NormalCache, s.cache),
       analytics := MapOption(NormalAnalytics, s.analytics),
       local := "")
  }

  ghost predicate Named(s: Spec) {
    && s.schema.Some? && s.name != "" && s.schema.value.table != ""
    && (s.cache.Some? ==> -INT64 <= s.cache.value.ttl < INT64)
  }

  lemma ColumnBack(c: Column<int>)
    requires KnownType(c.kind)
    ensures TypeFromName(PackColumn(c).kind).Some? && UnpackColumn(PackColumn(c)) == c
  {
    TypeNames(c.kind, "");
  }

  lemma {:induction false} ColumnsBack(cols: seq<Column<int>>)
    requires forall i :: 0 <= i < |cols| ==> KnownType(cols[i].kind)
    ensures Map(UnpackColumn, Map(PackColumn, cols)) == cols
    ensures forall i :: 0 <= i < |cols| ==> TypeFromName(Map(PackColumn, cols)[i].kind).Some?
  {
    forall i | 0 <= i < |cols|
      ensures TypeFromName(Map(PackColumn, cols)[i].kind).Some?
      ensures Map(UnpackColumn, Map(PackColumn, cols))[i] == cols[i]
    {
      ColumnBack(cols[i]);
    }
  }

  lemma IndexesBack(xs: seq<Index<Slice>>)
    ensures Map(UnpackIndex, Map(PackIndex, xs)) == Map(NormalIndex, xs)
    ensures Map(PackIndex, Map(NormalIndex, xs)) == Map(PackIndex, xs)
  {
  }

  lemma CacheBack(c: Option<Cache>)
    requires c.Some? ==> -INT64 <= c.value.ttl < INT64
    ensures MapOption(UnpackCache, MapOption(PackCache, c)) == MapOption(NormalCache, c)
    ensures MapOption(PackCache, MapOption(NormalCache, c)) == MapOption(PackCache, c)
  {
    if c.Some? {
      TruncatedFits(c.value.ttl);
      SecondsFit(Seconds(c.value.ttl));
    }
  }

  lemma OptionsBack(s: Spec)
    ensures MapOption(UnpackEdge, MapOption(PackEdge, s.graphEdge)) == MapOption(NormalEdge, s.graphEdge)
    ensures MapOption(PackEdge, MapOption(NormalEdge, s.graphEdge)) == MapOption(PackEdge, s.graphEdge)
    ensures MapOption(UnpackLive, MapOption(PackLive, s.live)) == MapOption(NormalLive, s.live)
    ensures MapOption(PackLive, MapOption(NormalLive, s.live)) == MapOption(PackLive, s.live)
    ensures MapOption(UnpackAnalytics, MapOption(PackAnalytics, s.analytics)) == MapOption(NormalAnalytics, s.analytics)
    ensures MapOption(PackAnalytics, MapOption(NormalAnalytics, s.analytics)) == MapOption(PackAnalytics, s.analytics)
  {
  }

  lemma PackDecodable(s: Spec)
    requires Named(s) && Encodable(s)
    ensures Decodable(Pack(s))
  {
    ColumnsBack(s.schema.value.columns);
  }

  lemma UnpackPack(s: Spec)
    requires Named(s) && Encodable(s)
    ensures Unpack(Pack(s)) == Normal(s)
  {
    ColumnsBack(s.schema.value.columns);
    IndexesBack(s.schema.value.indexes);
    CacheBack(s.cache);
    OptionsBack(s);
  }

  lemma PackNormal(s: Spec)
    requires Named(s) && Encodable(s)
    ensures Pack(Normal(s)) == Pack(s)
  {
    IndexesBack(s.schema.value.indexes);
    CacheBack(s.cache);
    OptionsBack(s);
  }

  /** Decoding an encoded spec gives its normal form, which encodes to the same row. */
  lemma SpecRoundTrip(s: Spec)
    requires Named(s) && Encodable(s)
    ensures Decode(Encode(s).value) == Some(Normal(s))
    ensures Encode(Normal(s)) == Encode(s)
  {
    PackDecodable(s);
    UnpackPack(s);
    PackNormal(s);
  }

  lemma PersistedPieces(p: Persisted)
    requires Decodable(p)
    ensures Map(PackColumn, Map(UnpackColumn, p.columns)) == p.columns
    ensures forall i :: 0 <= i < |p.columns| ==> KnownType(Map(UnpackColumn, p.columns)[i].kind)
    ensures Map(PackIndex, Map(UnpackIndex, p.indexes)) == p.indexes
  {
    forall i | 0 <= i < |p.columns|
      ensures PackColumn(UnpackColumn(p.columns[i])) == p.columns[i] && KnownType(UnpackColumn(p.columns[i]).kind)
    {
      TypeNames(0, p.columns[i].kind);
    }
  }

  ghost predicate TtlFits(c: Option<Cache>) {
    c.Some? ==> -INT64 <= c.value.ttl * SECOND < INT64
  }

  lemma CacheForth(c: Option<Cache>)
    ensures MapOption(PackCache, MapOption(UnpackCache, c)) == c <==> TtlFits(c)
  {
    if c.Some? {
      if TtlFits(c) { SecondsFit(c.value.ttl); } else { SecondsLost(c.value.ttl); }
    }
  }

  lemma OptionsForth(p: Persisted)
    ensures MapOption(PackEdge, MapOption(UnpackEdge, p.graphEdge)) == p.graphEdge
    ensures MapOption(PackLive, MapOption(UnpackLive, p.live)) == p.live
    ensures MapOption(PackAnalytics, MapOption(UnpackAnalytics, p.analytics)) == p.analytics
  {
  }

  /** No list is empty but not nil. */
  ghost predicate NoEmpty(l: Slice) {
    l.Null? || l.items != []
  }

  /** What a spec must look like to come back from its row as it went in: no empty lists, a ttl
      of whole seconds, and nothing in-process. */
  ghost predicate Persistent(s: Spec)
    requires s.schema.Some?
  {
    && s.local == "" && NoEmpty(s.search.fields)
    && (forall i :: 0 <= i < |s.schema.value.indexes| ==> NoEmpty(s.schema.value.indexes[i].columns))
    && (s.graphEdge.Some? ==> NoEmpty(s.graphEdge.value.props))
    && (s.live.Some? ==> NoEmpty(s.live.value.filterable) && NoEmpty(s.live.value.sortable))
    && (s.cache.Some? ==> s.cache.value.ttl % 1_000_000_000 == 0)
    && (s.analytics.Some? ==>
          NoEmpty(s.analytics.value.incl) && NoEmpty(s.analytics.value.hash) && NoEmpty(s.analytics.value.excl))
  }

  lemma IndexesSurvive(xs: seq<Index<Slice>>)
    ensures Map(NormalIndex, xs) == xs <==> forall i :: 0 <= i < |xs| ==> NoEmpty(xs[i].columns)
  {
    if Map(NormalIndex, xs) == xs {
      forall i | 0 <= i < |xs| ensures NoEmpty(xs[i].columns) { assert Map(NormalIndex, xs)[i] == NormalIndex(xs[i]); }
    }
  }

  lemma TtlSurvives(ttl: int)
    ensures Seconds(ttl) * SECOND == ttl <==> ttl % SECOND == 0
  {
    if ttl < 0 { assert ttl == -(-ttl); }
  }

  lemma OptionsSurvive(s: Spec)
    ensures MapOption(NormalEdge, s.graphEdge) == s.graphEdge <==> s.graphEdge.Some? ==> NoEmpty(s.graphEdge.value.props)
    ensures MapOption(NormalLive, s.live) == s.live <==>
              s.live.Some? ==> NoEmpty(s.live.value.filterable) && NoEmpty(s.live.value.sortable)
    ensures MapOption(NormalCache, s.cache) == s.cache <==> s.cache.Some? ==> s.cache.value.ttl % SECOND == 0
    ensures MapOption(NormalAnalytics, s.analytics) == s.analytics <==>
              s.analytics.Some? ==>
                NoEmpty(s.analytics.value.incl) && NoEmpty(s.analytics.value.hash) && NoEmpty(s.analytics.value.excl)
  {
    if s.cache.Some? { TtlSurvives(s.cache.value.ttl); }
  }

  /** What Normal leaves alone, piece by piece. */
  lemma NormalPieces(s: Spec)
    requires s.schema.Some?
    ensures Normal(s) == s <==>
              && Map(NormalIndex, s.schema.value.indexes) == s.schema.value.indexes
              && MapOption(NormalEdge, s.graphEdge) == s.graphEdge
              && NormalSlice(s.search.fields) == s.search.fields
              && MapOption(NormalLive, s.live) == s.live && MapOption(NormalCache, s.cache) == s.cache
              && MapOption(NormalAnalytics, s.analytics) == s.analytics && s.local == ""
  {
    if Normal(s) == s {
      assert Normal(s).schema == s.schema && Normal(s).search == s.search;
    }
  }

  /** Exactly those specs survive the round trip unchanged. */
  lemma SurvivesIff(s: Spec)
    requires Named(s) && Encodable(s)
    ensures Decode(Encode(s).value) == Some(s) <==> Persistent(s)
  {
    SpecRoundTrip(s);
    NormalPieces(s);
    IndexesSurvive(s.schema.value.indexes);
    OptionsSurvive(s);
  }

  /** A row that decodes encodes back to itself exactly when its ttl fits in nanoseconds. */
  lemma RowRoundTrip(p: Persisted)
    requires Decodable(p)
    ensures Encode(Decode(p).value) == Some(p) <==> TtlFits(p.cache)
  {
    PersistedPieces(p);
    CacheForth(p.cache);
    OptionsForth(p);
  }

  predicate SameEncoding(a: Spec, b: Spec) {
    Encode(a).Some? && Encode(b).Some? && Encode(a) == Encode(b)
  }

  /** Two specs persist alike exactly when their normal forms agree. */
  lemma SameEncodingMeans(a: Spec, b: Spec)
    requires Named(a) && Named(b) && Encodable(a) && Encodable(b)
    ensures SameEncoding(a, b) <==> Normal(a) == Normal(b)
  {
    SpecRoundTrip(a);
    SpecRoundTrip(b);
  }

  // ---- only grows ----

  /** The last column or index of a name: a later one overwrites an earlier one in the
      lookup map. */
  function LastColumn(cols: seq<Column<int>>, name: string): Option<Column<int>> {
    if cols == [] then None
    else if cols[|cols| - 1].name == name then Some(cols[|cols| - 1])
    else LastColumn(cols[..|cols| - 1], name)
  }

  function LastIndex(xs: seq<Index<Slice>>, name: string): Option<Index<Slice>> {
    if xs == [] then None
    else if xs[|xs| - 1].name == name then Some(xs[|xs| - 1])
    else LastIndex(xs[..|xs| - 1], name)
  }

  /** next's columns, in cur's order, when none of cur's is missing. */
  function PickColumns(cur: seq<Column<int>>, next: seq<Column<int>>): Option<seq<Column<int>>> {
    if cur == [] then Some([]) else
      var n := |cur| - 1;
      var rest, c := PickColumns(cur[..n], next), LastColumn(next, cur[n].name);
      if rest.None? || c.None? then None else Some(rest.value + [c.value])
  }

  function PickIndexes(cur: seq<Index<Slice>>, next: seq<Index<Slice>>): Option<seq<Index<Slice>>> {
    if cur == [] then Some([]) else
      var n := |cur| - 1;
      var rest, x := PickIndexes(cur[..n], next), LastIndex(next, cur[n].name);
      if rest.None? || x.None? then None else Some(rest.value + [x.value])
  }

  /** Project next onto cur's columns and indexes and compare encodings. */
  predicate Additive(cur: Spec, next: Spec) {
    && cur.schema.Some? && next.schema.Some?
    && cur.schema.value.table == next.schema.value.table
    && var cols := PickColumns(cur.schema.value.columns, next.schema.value.columns);
    var idx := PickIndexes(cur.schema.value.indexes, next.schema.value.indexes);
    && cols.Some? && idx.Some?
    && SameEncoding(cur, next.(schema := Some(next.schema.value.(columns := cols.value, indexes := idx.value))))
  }

  ghost predicate UniqueNames(s: Spec) {
    s.schema.Some? ==>
      var c := s.schema.value;
      && (forall i, j :: 0 <= i < j < |c.columns| ==> c.columns[i].name != c.columns[j].name)
      && (forall i, j :: 0 <= i < j < |c.indexes| ==> c.indexes[i].name != c.indexes[j].name)
  }

  ghost predicate HasIndex(xs: seq<Index<Slice>>, x: Index<Slice>) {
    exists y :: y in xs && PackIndex(y) == PackIndex(x)
  }

  /** Everything but the columns and indexes. */
  function Rest(s: Spec): Persisted
    requires s.schema.Some?
  {
    Pack(s).(columns := [], indexes := [])
  }

  /** cur's columns and indexes are all in next, and nothing else that persists differs. */
  ghost predicate Grows(cur: Spec, next: Spec) {
    && Encodable(cur) && next.schema.Some? && Rest(cur) == Rest(next)
    && (forall c :: c in cur.schema.value.columns ==> c in next.schema.value.columns)
    && (forall x :: x in cur.schema.value.indexes ==> HasIndex(next.schema.value.indexes, x))
  }

  lemma {:induction false} LastColumnIs(cols: seq<Column<int>>, name: string)
    ensures LastColumn(cols, name).Some? ==> LastColumn(cols, name).value in cols && LastColumn(cols, name).value.name == name
    ensures (forall i, j :: 0 <= i < j < |cols| ==> cols[i].name != cols[j].name) ==>
              forall c :: c in cols && c.name == name ==> LastColumn(cols, name) == Some(c)
  {
    if cols != [] {
      var n := |cols| - 1;
      LastColumnIs(cols[..n], name);
      assert cols == cols[..n] + [cols[n]];
    }
  }

  lemma {:induction false} LastIndexIs(xs: seq<Index<Slice>>, name: string)
    ensures LastIndex(xs, name).Some? ==> LastIndex(xs, name).value in xs && LastIndex(xs, name).value.name == name
    ensures (forall i, j :: 0 <= i < j < |xs| ==> xs[i].name != xs[j].name) ==>
              forall x :: x in xs && x.name == name ==> LastIndex(xs, name) == Some(x)
  {
    if xs != [] {
      var n := |xs| - 1;
      LastIndexIs(xs[..n], name);
      assert xs == xs[..n] + [xs[n]];
    }
  }

  lemma {:induction false} PickColumnsIs(cur: seq<Column<int>>, next: seq<Column<int>>)
    ensures PickColumns(cur, next).Some? <==> forall i :: 0 <= i < |cur| ==> LastColumn(next, cur[i].name).Some?
    ensures PickColumns(cur, next).Some? ==>
              && |PickColumns(cur, next).value| == |cur|
              && forall i :: 0 <= i < |cur| ==> Some(PickColumns(cur, next).value[i]) == LastColumn(next, cur[i].name)
  {
    if cur != [] { PickColumnsIs(cur[..|cur| - 1], next); }
  }

  lemma {:induction false} PickIndexesIs(cur: seq<Index<Slice>>, next: seq<Index<Slice>>)
    ensures PickIndexes(cur, next).Some? <==> forall i :: 0 <= i < |cur| ==> LastIndex(next, cur[i].name).Some?
    ensures PickIndexes(cur, next).Some? ==>
              && |PickIndexes(cur, next).value| == |cur|
              && forall i :: 0 <= i < |cur| ==> Some(PickIndexes(cur, next).value[i]) == LastIndex(next, cur[i].name)
  {
    if cur != [] { PickIndexesIs(cur[..|cur| - 1], next); }
  }

  ghost predicate LastIs(cols: seq<Column<int>>, c: Column<int>) {
    LastColumn(cols, c.name) == Some(c)
  }

  ghost predicate LastPacksLike(xs: seq<Index<Slice>>, x: Index<Slice>) {
    LastIndex(xs, x.name).Some? && PackIndex(LastIndex(xs, x.name).value) == PackIndex(x)
  }

  /** cur's columns picked from next encode like cur's exactly when each is next's last of
      its name. */
  lemma ColumnsPicked(cur: seq<Column<int>>, next: seq<Column<int>>)
    requires forall i :: 0 <= i < |cur| ==> KnownType(cur[i].kind)
    ensures (forall i :: 0 <= i < |cur| ==> LastIs(next, cur[i])) <==>
              && PickColumns(cur, next).Some?
              && (forall c :: c in PickColumns(cur, next).value ==> KnownType(c.kind))
              && Map(PackColumn, PickColumns(cur, next).value) == Map(PackColumn, cur)
  {
    PickColumnsIs(cur, next);
    if forall i :: 0 <= i < |cur| ==> LastIs(next, cur[i]) {
      forall i | 0 <= i < |cur| ensures LastColumn(next, cur[i].name) == Some(cur[i]) { assert LastIs(next, cur[i]); }
      assert PickColumns(cur, next).value == cur;
    } else if PickColumns(cur, next).Some? {
      var got := PickColumns(cur, next).value;
      if (forall c :: c in got ==> KnownType(c.kind)) && Map(PackColumn, got) == Map(PackColumn, cur) {
        forall i | 0 <= i < |cur| ensures LastIs(next, cur[i]) { SameColumn(got, cur, i); }
      }
    }
  }

  lemma SameColumn(a: seq<Column<int>>, b: seq<Column<int>>, i: nat)
    requires i < |a| == |b| && Map(PackColumn, a) == Map(PackColumn, b)
    requires KnownType(a[i].kind) && KnownType(b[i].kind)
    ensures a[i] == b[i]
  {
    assert PackColumn(a[i]) == Map(PackColumn, a)[i] == PackColumn(b[i]);
    ColumnBack(a[i]);
    ColumnBack(b[i]);
  }

  lemma IndexesPicked(cur: seq<Index<Slice>>, next: seq<Index<Slice>>)
    ensures (forall i :: 0 <= i < |cur| ==> LastPacksLike(next, cur[i])) <==>
              PickIndexes(cur, next).Some? && Map(PackIndex, PickIndexes(cur, next).value) == Map(PackIndex, cur)
  {
    PickIndexesIs(cur, next);
    if PickIndexes(cur, next).Some? && exists i :: 0 <= i < |cur| && !LastPacksLike(next, cur[i]) {
      var got := PickIndexes(cur, next).value;
      var i :| 0 <= i < |cur| && !LastPacksLike(next, cur[i]);
      assert Map(PackIndex, got)[i] == PackIndex(got[i]) && Map(PackIndex, cur)[i] == PackIndex(cur[i]);
    }
  }

  /** What the test decides on any two specs, repeated names included: cur can be encoded,
      each of its columns is next's last of that name, each of its indexes packs like next's
      last of that name, and nothing else that persists differs. */
  ghost predicate Contains(cur: Spec, next: Spec) {
    && Encodable(cur) && next.schema.Some? && Rest(cur) == Rest(next)
    && (forall i :: 0 <= i < |cur.schema.value.columns| ==>
                      LastIs(next.schema.value.columns, cur.schema.value.columns[i]))
    && (forall i :: 0 <= i < |cur.schema.value.indexes| ==>
                      LastPacksLike(next.schema.value.indexes, cur.schema.value.indexes[i]))
  }

  lemma AdditiveExactly(cur: Spec, next: Spec)
    ensures Additive(cur, next) <==> Contains(cur, next)
  {
    if cur.schema.Some? && next.schema.Some? && Encodable(cur) {
      var a, b := cur.schema.value, next.schema.value;
      ColumnsPicked(a.columns, b.columns);
      IndexesPicked(a.indexes, b.indexes);
      PickColumnsIs(a.columns, b.columns);
      var cols, idx := PickColumns(a.columns, b.columns), PickIndexes(a.indexes, b.indexes);
      if cols.Some? && idx.Some? {
        ProjectionEncodes(cur, next, cols.value, idx.value);
      }
    }
  }

  /** On unique names in next that is growth: next has every column and index of cur. */
  lemma AdditiveMeans(cur: Spec, next: Spec)
    requires UniqueNames(next)
    ensures Additive(cur, next) <==> Grows(cur, next)
  {
    AdditiveExactly(cur, next);
    if Encodable(cur) && next.schema.Some? {
      UniqueColumns(cur.schema.value.columns, next.schema.value.columns);
      UniqueIndexes(cur.schema.value.indexes, next.schema.value.indexes);
    }
  }

  lemma UniqueColumns(cur: seq<Column<int>>, next: seq<Column<int>>)
    requires forall i, j :: 0 <= i < j < |next| ==> next[i].name != next[j].name
    ensures (forall i :: 0 <= i < |cur| ==> LastIs(next, cur[i])) <==> forall c :: c in cur ==> c in next
  {
    forall i | 0 <= i < |cur| ensures LastIs(next, cur[i]) <==> cur[i] in next { LastColumnIs(next, cur[i].name); }
  }

  lemma UniqueIndexes(cur: seq<Index<Slice>>, next: seq<Index<Slice>>)
    requires forall i, j :: 0 <= i < j < |next| ==> next[i].name != next[j].name
    ensures (forall i :: 0 <= i < |cur| ==> LastPacksLike(next, cur[i])) <==> forall x :: x in cur ==> HasIndex(next, x)
  {
    forall i | 0 <= i < |cur| ensures LastPacksLike(next, cur[i]) <==> HasIndex(next, cur[i]) {
      LastIndexIs(next, cur[i].name);
      if HasIndex(next, cur[i]) {
        var y :| y in next && PackIndex(y) == PackIndex(cur[i]);
        assert y.name == PackIndex(y).name;
      }
    }
  }

  lemma ProjectionEncodes(cur: Spec, next: Spec, cols: seq<Column<int>>, idx: seq<Index<Slice>>)
    requires Encodable(cur) && next.schema.Some? && |cols| == |cur.schema.value.columns|
    ensures SameEncoding(cur, next.(schema := Some(next.schema.value.(columns := cols, indexes := idx)))) <==>
              && (forall c :: c in cols ==> KnownType(c.kind))
              && Map(PackColumn, cols) == Map(PackColumn, cur.schema.value.columns)
              && Map(PackIndex, idx) == Map(PackIndex, cur.schema.value.indexes)
              && Rest(cur) == Rest(next)
  {
    var p := next.(schema := Some(next.schema.value.(columns := cols, indexes := idx)));
    assert Rest(p) == Rest(next);
    assert Pack(cur) == Rest(cur).(columns := Pack(cur).columns, indexes := Pack(cur).indexes);
    assert Pack(p) == Rest(p).(columns := Pack(p).columns, indexes := Pack(p).indexes);
  }

  /** "Only grows" is reflexive exactly on the specs that can be encoded and in which every
      column, and every index as it packs, is the last of its name; */
  lemma AdditiveReflexive(a: Spec)
    ensures Additive(a, a) <==>
              && Encodable(a)
              && (forall i :: 0 <= i < |a.schema.value.columns| ==>
                                LastIs(a.schema.value.columns, a.schema.value.columns[i]))
              && (forall i :: 0 <= i < |a.schema.value.indexes| ==>
                                LastPacksLike(a.schema.value.indexes, a.schema.value.indexes[i]))
    ensures UniqueNames(a) ==> (Additive(a, a) <==> Encodable(a))
  {
    AdditiveExactly(a, a);
    if UniqueNames(a) && Encodable(a) {
      UniqueColumns(a.schema.value.columns, a.schema.value.columns);
      UniqueIndexes(a.schema.value.indexes, a.schema.value.indexes);
      forall x | x in a.schema.value.indexes ensures HasIndex(a.schema.value.indexes, x) {
      }
    }
  }

  /** transitive on all specs; */
  lemma AdditiveTransitive(a: Spec, b: Spec, c: Spec)
    requires Additive(a, b) && Additive(b, c)
    ensures Additive(a, c)
  {
    AdditiveExactly(a, b);
    AdditiveExactly(b, c);
    ContainsTransitive(a, b, c);
    AdditiveExactly(a, c);
  }

  lemma ContainsTransitive(a: Spec, b: Spec, c: Spec)
    requires Contains(a, b) && Contains(b, c)
    ensures Contains(a, c)
  {
    LastColumnsTransitive(a.schema.value.columns, b.schema.value.columns, c.schema.value.columns);
    LastIndexesTransitive(a.schema.value.indexes, b.schema.value.indexes, c.schema.value.indexes);
  }

  lemma LastColumnsTransitive(p: seq<Column<int>>, q: seq<Column<int>>, r: seq<Column<int>>)
    requires forall i :: 0 <= i < |p| ==> LastIs(q, p[i])
    requires forall i :: 0 <= i < |q| ==> LastIs(r, q[i])
    ensures forall i :: 0 <= i < |p| ==> LastIs(r, p[i])
  {
    forall i | 0 <= i < |p| ensures LastIs(r, p[i]) {
      assert LastIs(q, p[i]);
      LastColumnIs(q, p[i].name);
      var j :| 0 <= j < |q| && q[j] == p[i];
      assert LastIs(r, q[j]);
    }
  }

  lemma LastIndexesTransitive(p: seq<Index<Slice>>, q: seq<Index<Slice>>, r: seq<Index<Slice>>)
    requires forall i :: 0 <= i < |p| ==> LastPacksLike(q, p[i])
    requires forall i :: 0 <= i < |q| ==> LastPacksLike(r, q[i])
    ensures forall i :: 0 <= i < |p| ==> LastPacksLike(r, p[i])
  {
    forall i | 0 <= i < |p| ensures LastPacksLike(r, p[i]) {
      assert LastPacksLike(q, p[i]);
      LastIndexIs(q, p[i].name);
      var j :| 0 <= j < |q| && q[j] == LastIndex(q, p[i].name).value;
      assert LastPacksLike(r, q[j]);
    }
  }

  /** and blind to the order of next's columns and indexes. */
  lemma AdditiveIgnoresOrder(a: Spec, b: Spec, cols: seq<Column<int>>, idx: seq<Index<Slice>>)
    requires b.schema.Some? && UniqueNames(b)
    requires multiset(cols) == multiset(b.schema.value.columns) && multiset(idx) == multiset(b.schema.value.indexes)
    ensures Additive(a, b) <==> Additive(a, b.(schema := Some(b.schema.value.(columns := cols, indexes := idx))))
  {
    var b' := b.(schema := Some(b.schema.value.(columns := cols, indexes := idx)));
    PermutedNames(cols, b.schema.value.columns, (c: Column<int>) => c.name);
    PermutedNames(idx, b.schema.value.indexes, (x: Index<Slice>) => x.name);
    AdditiveMeans(a, b);
    AdditiveMeans(a, b');
    assert Rest(b) == Rest(b');
    SameMembers(cols, b.schema.value.columns);
    SameMembers(idx, b.schema.value.indexes);
    forall x ensures HasIndex(idx, x) <==> HasIndex(b.schema.value.indexes, x) {
    }
  }

  lemma SameMembers<T>(s: seq<T>, t: seq<T>)
    ensures multiset(s) == multiset(t) ==> forall x :: x in s <==> x in t
  {
    forall x ensures (x in s <==> x in multiset(s)) && (x in t <==> x in multiset(t)) {
    }
  }

  // ---- what registration lets through ----

  predicate IsIdent(s: string) {
    && 1 <= |s| <= 64 && !('0' <= s[0] <= '9')
    && forall i :: 0 <= i < |s| ==>
         'a' <= s[i] <= 'z' || 'A' <= s[i] <= 'Z' || s[i] == '_' || '0' <= s[i] <= '9'
  }

  /** The columns every dynamic table gets. */
  const STRUCTURAL := {"id", "tenant_id", "version"}

  function Items(l: Slice): seq<string> {
    match l case Null => [] case Of(items) => items
  }

  /** The checks of bindDynamic: identifiers, no structural and no repeated column, and indexes
      on known columns. Repeated index names pass. */
  ghost predicate Binds(s: Schema) {
    && IsIdent(s.table)
    && (forall i :: 0 <= i < |s.columns| ==> IsIdent(s.columns[i].name) && s.columns[i].name !in STRUCTURAL)
    && (forall i, j :: 0 <= i < j < |s.columns| ==> s.columns[i].name != s.columns[j].name)
    && (forall i :: 0 <= i < |s.indexes| ==> forall c :: c in Items(s.indexes[i].columns) ==> Known(s, c))
  }

  ghost predicate Known(s: Schema, c: string) {
    c in STRUCTURAL || exists i :: 0 <= i < |s.columns| && s.columns[i].name == c
  }

  /** On specs that registration accepts only the indexes decide. */
  lemma BoundReflexiveIff(s: Spec)
    requires s.schema.Some? && Binds(s.schema.value)
    ensures Additive(s, s) <==>
              Encodable(s) && forall i :: 0 <= i < |s.schema.value.indexes| ==>
                                            LastPacksLike(s.schema.value.indexes, s.schema.value.indexes[i])
  {
    AdditiveReflexive(s);
    UniqueColumns(s.schema.value.columns, s.schema.value.columns);
  }

  /** With a repeated index name, which registration accepts, a spec can fail the test
      against itself. */
  lemma RepeatedNameIsNotReflexive()
    ensures exists s :: Named(s) && Encodable(s) && Binds(s.schema.value) && !Additive(s, s)
  {
    var idx := [Index("i", Of(["id"]), false), Index("i", Of(["version"]), false)];
    var s := Spec("e", Some(Schema("t", [], idx, false)), "", None, [], Search("", Null), [], None, None, None, "");
    assert LastIndex(idx, "i") == Some(idx[1]);
    assert PackIndex(idx[0]).columns[0] != PackIndex(idx[1]).columns[0];
    assert !LastPacksLike(idx, idx[0]);
    assert Binds(s.schema.value);
    AdditiveReflexive(s);
  }
}
