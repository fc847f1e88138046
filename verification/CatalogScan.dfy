/** The tenant catalog: keyset pages read from a table that changes between pages, and
    compare-and-set updates on a timestamp. */
module CatalogScan {
  import opened StringOrder
  import opened Wrappers

  datatype Entry = Entry(data: string, active: bool, updatedAt: int)

  type Catalog = map<string, Entry>

  const PAGE := 500

  // ---- one page ----

  /** `page` is what List returns: the ids after `cursor` in order, cut at `limit`. */
  ghost predicate IsPage(cat: Catalog, cursor: string, limit: nat, page: seq<string>) {
    && |page| <= limit
    && (forall i, j :: 0 <= i < j < |page| ==> Less(page[i], page[j]))
    && (forall i :: 0 <= i < |page| ==> page[i] in cat && Less(cursor, page[i]))
    && (forall t :: t in cat && Less(cursor, t) && t !in page ==>
                      |page| == limit && forall i :: 0 <= i < |page| ==> Less(page[i], t))
  }

  method Smallest(ids: set<string>) returns (m: string)
    requires ids != {}
    ensures m in ids && forall t :: t in ids && t != m ==> Less(m, t)
  {
    m :| m in ids;
    var left := ids - {m};
    while left != {}
      invariant left <= ids && m in ids && m !in left
      invariant forall t :: t in ids && t !in left && t != m ==> Less(m, t)
      decreases left
    {
      var x :| x in left;
      left := left - {x};
      LessTotal(x, m);
      if Less(x, m) {
        forall t | t in ids && t !in left && t != x ensures Less(x, t) {
          if t != m { LessTrans(x, m, t); }
        }
        m := x;
      }
    }
  }

  const DEFAULT_LIMIT := 100

  /** The page size in effect. */
  function Limit(asked: int): nat {
    if asked <= 0 then DEFAULT_LIMIT else asked
  }

  method List(cat: Catalog, cursor: string, asked: int) returns (page: seq<string>, next: string)
    ensures IsPage(cat, cursor, Limit(asked), page) && |page| <= if asked <= 0 then 100 else asked
    ensures next != "" <==> |page| == Limit(asked)
    ensures next != "" ==> next == page[|page| - 1]
  {
    var limit := if asked <= 0 then DEFAULT_LIMIT else asked;
    page := [];
    var left := set t | t in cat && Less(cursor, t);
    while |page| < limit && left != {}
      invariant |page| <= limit
      invariant forall i, j :: 0 <= i < j < |page| ==> Less(page[i], page[j])
      invariant forall i :: 0 <= i < |page| ==> page[i] in cat && Less(cursor, page[i])
      invariant forall t :: t in left ==> t in cat && Less(cursor, t) && forall i :: 0 <= i < |page| ==> Less(page[i], t)
      invariant forall t :: t in cat && Less(cursor, t) && t !in page ==> t in left
      decreases left
    {
      var m := Smallest(left);
      left := left - {m};
      page := page + [m];
    }
    next := if |page| == limit then page[limit - 1] else "";
  }

  // ---- the scan ----

  ghost predicate Increasing(s: seq<string>) {
    forall i, j :: 0 <= i < j < |s| ==> Less(s[i], s[j])
  }

  predicate AtMost(a: string, b: string) {
    a == b || Less(a, b)
  }

  /** The ids that page i is responsible for: after its cursor, up to the next one. */
  ghost predicate InCut(cuts: seq<string>, i: nat, t: string)
    requires i < |cuts|
  {
    Less(cuts[i], t) && (i + 1 < |cuts| ==> AtMost(t, cuts[i + 1]))
  }

  ghost predicate ActiveIn(cat: Catalog, t: string) {
    t in cat && cat[t].active
  }

  /** For the ids of the first n pages, `out` holds exactly those active when their page
      was read. */
  ghost predicate Exact(cats: seq<Catalog>, cuts: seq<string>, n: nat, out: seq<string>)
    requires n <= |cats| && n <= |cuts|
  {
    forall i: nat, t :: i < n && InCut(cuts, i, t) ==> (t in out <==> ActiveIn(cats[i], t))
  }

  method ActiveOf(cat: Catalog, page: seq<string>) returns (r: seq<string>)
    requires Increasing(page) && forall i :: 0 <= i < |page| ==> page[i] in cat
    ensures Increasing(r) && forall t :: t in r <==> t in page && ActiveIn(cat, t)
  {
    r := [];
    for i := 0 to |page|
      invariant Increasing(r)
      invariant forall t :: t in r <==> t in page[..i] && ActiveIn(cat, t)
    {
      assert forall t :: t in r ==> Less(t, page[i]);
      if cat[page[i]].active { r := r + [page[i]]; }
    }
    assert page[..|page|] == page;
  }

  lemma IncreasingConcat(a: seq<string>, b: seq<string>, c: string)
    requires Increasing(a) && Increasing(b)
    requires (forall t :: t in a ==> AtMost(t, c)) && (forall t :: t in b ==> Less(c, t))
    ensures Increasing(a + b)
  {
    forall i, j | 0 <= i < j < |a + b| ensures Less((a + b)[i], (a + b)[j]) {
      if i < |a| <= j {
        assert a[i] in a && b[j - |a|] in b;
        if a[i] != c { LessTrans(a[i], c, b[j - |a|]); }
      }
    }
  }

  lemma NotBoth(a: string, b: string, c: string)
    ensures !(AtMost(a, b) && AtMost(b, c) && Less(c, a))
  {
    LessIrreflexive(a);
    if Less(a, b) && Less(b, c) { LessTrans(a, b, c); }
    if Less(a, c) && Less(c, a) { LessTrans(a, c, a); }
  }

  /** A page up to its cut holds every id of the cut. */
  lemma PageIsCut(cat: Catalog, cursor: string, page: seq<string>, t: string)
    requires IsPage(cat, cursor, PAGE, page) && Less(cursor, t)
    requires |page| == PAGE ==> AtMost(t, page[PAGE - 1])
    ensures t in page <==> t in cat
  {
    if t in cat && t !in page {
      NotBoth(t, page[PAGE - 1], page[PAGE - 1]);
    }
  }

  /** Reading one more page keeps the output exact. */
  lemma ExactStep(cats: seq<Catalog>, cuts: seq<string>, cuts': seq<string>, i: nat, out: seq<string>,
                  page: seq<string>, r: seq<string>)
    requires i < |cats| && |cuts| == i + 1 && Increasing(cuts) && Exact(cats, cuts, i, out)
    requires IsPage(cats[i], cuts[i], PAGE, page)
    requires cuts' == if |page| == PAGE then cuts + [page[PAGE - 1]] else cuts
    requires forall t :: t in r <==> t in page && ActiveIn(cats[i], t)
    requires forall t :: t in out ==> AtMost(t, cuts[i])
    ensures Exact(cats, cuts', i + 1, out + r)
  {
    forall j: nat, t | j < i + 1 && InCut(cuts', j, t) ensures t in out + r <==> ActiveIn(cats[j], t) {
      if j == i {
        PageIsCut(cats[i], cuts[i], page, t);
        if t in out { NotBoth(t, cuts[i], cuts[i]); }
      } else {
        assert InCut(cuts, j, t);
        if t in page {
          assert Less(cuts[i], t);
          NotBoth(t, cuts[j + 1], cuts[i]);
        }
      }
    }
  }

  ghost function Beyond(cat: Catalog, cursor: string): set<string> {
    set t | t in cat && Less(cursor, t)
  }

  /** A full page takes PAGE ids out of what is left. */
  lemma FullPageShrinks(cat: Catalog, cursor: string, page: seq<string>)
    requires IsPage(cat, cursor, PAGE, page) && |page| == PAGE
    ensures |Beyond(cat, page[PAGE - 1])| + PAGE <= |Beyond(cat, cursor)|
  {
    var taken := set t | t in page;
    DistinctCount(page);
    forall t | t in Beyond(cat, page[PAGE - 1]) ensures t in Beyond(cat, cursor) && t !in taken {
      LessTrans(cursor, page[PAGE - 1], t);
      if t in page {
        var k :| 0 <= k < |page| && page[k] == t;
        NotBoth(t, page[PAGE - 1], page[PAGE - 1]);
      }
    }
    assert taken <= Beyond(cat, cursor);
    SubsetSize(Beyond(cat, page[PAGE - 1]), Beyond(cat, cursor) - taken);
  }

  lemma {:induction false} DistinctCount(s: seq<string>)
    requires Increasing(s)
    ensures |set t | t in s| == |s|
  {
    if s != [] {
      var n := |s| - 1;
      DistinctCount(s[..n]);
      assert s[n] !in s[..n] by { LessIrreflexive(s[n]); }
      assert (set t | t in s) == (set t | t in s[..n]) + {s[n]};
    }
  }

  lemma {:induction false} SubsetSize(a: set<string>, b: set<string>)
    requires a <= b
    ensures |a| <= |b|
  {
    if a != {} {
      var x :| x in a;
      SubsetSize(a - {x}, b - {x});
    }
  }

  /** allTenantsFromCatalog over the catalog as it is at each page read: in id order, each id
      exactly once, present exactly when active at the time its page was read. A catalog
      that does not change is finished within its number of pages, a full last page included. */
  method AllTenants(cats: seq<Catalog>) returns (out: seq<string>, done: bool, ghost cuts: seq<string>)
    ensures Increasing(out)
    ensures done ==> 1 <= |cuts| <= |cats| && cuts[0] == "" && Increasing(cuts) && Exact(cats, cuts, |cuts|, out)
    ensures !done && cats != [] && (forall i :: 0 <= i < |cats| ==> cats[i] == cats[0]) ==> PAGE * |cats| <= |cats[0]|
  {
    out, done, cuts := [], false, [""];
    var cursor, i := "", 0;
    if cats != [] { SubsetSize(Beyond(cats[0], ""), cats[0].Keys); }
    while i < |cats|
      invariant 0 <= i <= |cats| && |cuts| == i + 1 && cuts[0] == "" && cuts[i] == cursor
      invariant Increasing(cuts) && Increasing(out) && Exact(cats, cuts, i, out)
      invariant forall t :: t in out ==> AtMost(t, cursor)
      invariant cats != [] && (forall j :: 0 <= j < |cats| ==> cats[j] == cats[0]) ==>
                  PAGE * i + |Beyond(cats[0], cursor)| <= |cats[0]|
    {
      var page, next := List(cats[i], cursor, PAGE);
      var r := ActiveOf(cats[i], page);
      IncreasingConcat(out, r, cursor);
      if next == "" {
        ExactStep(cats, cuts, cuts, i, out, page, r);
        out := out + r;
        done := true;
        return;
      }
      ExactStep(cats, cuts, cuts + [next], i, out, page, r);
      FullPageShrinks(cats[i], cursor, page);
      CursorMoves(cuts, out, r, page, cursor);
      out, cursor, cuts, i := out + r, next, cuts + [next], i + 1;
    }
  }

  lemma CursorMoves(cuts: seq<string>, out: seq<string>, r: seq<string>, page: seq<string>, cursor: string)
    requires |page| == PAGE && Increasing(page) && Less(cursor, page[PAGE - 1])
    requires cuts != [] && Increasing(cuts) && cuts[|cuts| - 1] == cursor
    requires (forall t :: t in out ==> AtMost(t, cursor)) && (forall t :: t in r ==> t in page)
    ensures Increasing(cuts + [page[PAGE - 1]])
    ensures forall t :: t in out + r ==> AtMost(t, page[PAGE - 1])
  {
    var next := page[PAGE - 1];
    forall i | 0 <= i < |cuts| ensures Less(cuts[i], next) {
      if i < |cuts| - 1 { LessTrans(cuts[i], cursor, next); }
    }
    forall t | t in out + r ensures AtMost(t, next) {
      if t in out {
        if t != cursor { LessTrans(t, cursor, next); }
      } else {
        assert t in r;
      }
    }
  }

  // ---- compare and set ----

  /** A Put: `expected` is the timestamp read before, 0 to create; the database stamps it
      with `now`. */
  datatype Put = Put(tenant: string, data: string, active: bool, expected: int, now: int)

  predicate Succeeds(cat: Catalog, p: Put) {
    if p.expected == 0 then p.tenant !in cat else p.tenant in cat && cat[p.tenant].updatedAt == p.expected
  }

  function Applied(cat: Catalog, p: Put): Catalog {
    if Succeeds(cat, p) then cat[p.tenant := Entry(p.data, p.active, p.now)] else cat
  }

  datatype PutResult = Stamped(at: int) | Unavailable | Invalid | AlreadyExists | Conflict

  class CatalogStore {
    const readOnly: bool
    var rows: Catalog

    constructor (readOnly: bool)
      ensures rows == map[] && this.readOnly == readOnly
    {
      this.readOnly, rows := readOnly, map[];
    }

    /** `valid`: the entry passes validation. A replica and an invalid entry change nothing;
        otherwise exactly the Puts that succeed move the row and return its new timestamp. */
    method Put(p: Put, valid: bool) returns (r: PutResult)
      modifies this
      ensures r.Stamped? <==> !readOnly && valid && Succeeds(old(rows), p)
      ensures r.Stamped? ==> r.at == p.now && rows == Applied(old(rows), p)
      ensures !r.Stamped? ==> rows == old(rows)
      ensures r.Unavailable? <==> readOnly
      ensures r.Invalid? <==> !readOnly && !valid
      ensures r.AlreadyExists? <==> !readOnly && valid && p.expected == 0 && p.tenant in old(rows)
    {
      if readOnly { return Unavailable; }
      if !valid { return Invalid; }
      if p.expected == 0 {
        if p.tenant in rows { return AlreadyExists; }
      } else if p.tenant !in rows || rows[p.tenant].updatedAt != p.expected {
        return Conflict;
      }
      rows := rows[p.tenant := Entry(p.data, p.active, p.now)];
      return Stamped(p.now);
    }
  }

  function After(cat: Catalog, log: seq<Put>): Catalog {
    if log == [] then cat else Applied(After(cat, log[..|log| - 1]), log[|log| - 1])
  }

  /** Timestamps are positive and strictly increasing. */
  ghost predicate Stamps(log: seq<Put>) {
    && (forall i :: 0 <= i < |log| ==> 0 < log[i].now)
    && (forall i, j :: 0 <= i < j < |log| ==> log[i].now < log[j].now)
  }

  /** The i-th Put of the log succeeds. */
  ghost predicate Won(log: seq<Put>, i: nat)
    requires i < |log|
  {
    Succeeds(After(map[], log[..i]), log[i])
  }

  /** The stored row of a tenant is the one its last successful Put wrote. */
  lemma {:induction false} LastWinner(log: seq<Put>, t: string) returns (k: Option<nat>)
    ensures k.None? <==> t !in After(map[], log)
    ensures k.None? ==> forall i: nat :: i < |log| && log[i].tenant == t ==> !Won(log, i)
    ensures k.Some? ==> k.value < |log| && log[k.value].tenant == t && Won(log, k.value)
    ensures k.Some? ==> After(map[], log)[t] == Entry(log[k.value].data, log[k.value].active, log[k.value].now)
    ensures k.Some? ==> forall i: nat :: k.value < i < |log| && log[i].tenant == t ==> !Won(log, i)
  {
    if log == [] {
      k := None;
    } else {
      var n := |log| - 1;
      var pre := log[..n];
      k := LastWinner(pre, t);
      forall i: nat | i < n ensures Won(log, i) <==> Won(pre, i) { assert pre[..i] == log[..i]; }
      if log[n].tenant == t && Won(log, n) { k := Some(n); }
    }
  }

  /** Successful Puts of a tenant form one chain: an update that wins was based on the
      winner just before it, so no update is lost; a create wins only before all others. */
  lemma PutsFormChain(log: seq<Put>, j: nat) returns (i: Option<nat>)
    requires Stamps(log) && j < |log| && Won(log, j)
    ensures i.None? <==> log[j].expected == 0
    ensures i.Some? ==> i.value < j && log[i.value].tenant == log[j].tenant && Won(log, i.value)
    ensures i.Some? ==> log[i.value].now == log[j].expected
    ensures forall k: nat :: (i.Some? ==> i.value < k) && k < j && log[k].tenant == log[j].tenant ==> !Won(log, k)
  {
    i := LastWinner(log[..j], log[j].tenant);
    forall k: nat | k < j ensures Won(log, k) <==> Won(log[..j], k) { assert log[..j][..k] == log[..k]; }
    if i.Some? { assert log[..j][i.value] == log[i.value]; }
  }

  /** Of two Puts based on the same timestamp at most one wins. */
  lemma NoLostUpdate(log: seq<Put>, i: nat, j: nat)
    requires Stamps(log) && i < j < |log| && log[i].tenant == log[j].tenant && log[i].expected == log[j].expected
    ensures !(Won(log, i) && Won(log, j))
  {
    if Won(log, i) && Won(log, j) {
      var a := PutsFormChain(log, i);
      var b := PutsFormChain(log, j);
    }
  }
}
