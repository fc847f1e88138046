/** The portable subtree walk: breadth first over parent_id, bounded in depth, sorted by
    relative path and filtered last. */
module FsWalk {
  import opened FsForest
  import opened FsTree
  import opened SeqFacts
  import opened StringOrder
  import opened Wrappers

  /** `n` lies `d` levels below `root`, through rows. */
  ghost predicate Below(t: Tree, root: string, n: string, d: nat)
    decreases d
  {
    if d == 0 then n == root else n in t && Below(t, root, t[n].parent, d - 1)
  }

  /** The names from below `root` down to `n`, each with its slash. */
  function RelPath(t: Tree, n: string, d: nat): string
    decreases d
  {
    if d == 0 || n !in t then "" else RelPath(t, t[n].parent, d - 1) + "/" + t[n].name
  }

  ghost predicate ProperlyBelow(t: Tree, root: string, n: string) {
    exists d: nat :: 1 <= d && Below(t, root, n, d)
  }

  ghost predicate HasDepth(t: Tree, root: string, d: nat) {
    exists n :: Below(t, root, n, d)
  }

  /** Some node lies at the depth bound. */
  ghost predicate TooDeep(t: Tree, root: string) {
    HasDepth(t, root, MAX_DEPTH)
  }

  // ---- facts about depth ----

  lemma {:induction false} BelowTrans(t: Tree, a: string, b: string, c: string, d: nat, e: nat)
    requires Below(t, a, b, d) && Below(t, b, c, e)
    ensures Below(t, a, c, d + e)
    decreases e
  {
    if e > 0 { BelowTrans(t, a, b, t[c].parent, d, e - 1); }
  }

  /** Cutting a descent at depth k. */
  lemma {:induction false} BelowSplit(t: Tree, root: string, n: string, d: nat, k: nat) returns (x: string)
    requires Below(t, root, n, d) && k <= d
    ensures Below(t, root, x, k) && Below(t, x, n, d - k)
    decreases d
  {
    if k == d {
      x := n;
    } else {
      x := BelowSplit(t, root, t[n].parent, d - 1, k);
    }
  }

  /** From one node only one id lies k levels up. */
  lemma {:induction false} BelowSameTop(t: Tree, a: string, b: string, n: string, d: nat)
    requires Below(t, a, n, d) && Below(t, b, n, d)
    ensures a == b
    decreases d
  {
    if d > 0 { BelowSameTop(t, a, b, t[n].parent, d - 1); }
  }

  lemma {:induction false} AroundTheCycle(t: Tree, root: string, d: nat, m: nat)
    requires 1 <= d && Below(t, root, root, d)
    ensures exists e: nat :: m <= e && Below(t, root, root, e)
  {
    if m > 0 {
      AroundTheCycle(t, root, d, m - 1);
      var e: nat :| m - 1 <= e && Below(t, root, root, e);
      BelowTrans(t, root, root, root, d, e);
      assert Below(t, root, root, d + e);
    } else {
      assert Below(t, root, root, 0);
    }
  }

  lemma ShallowerToo(t: Tree, root: string, d: nat, m: nat)
    requires HasDepth(t, root, d) && m <= d
    ensures HasDepth(t, root, m)
  {
    var n :| Below(t, root, n, d);
    var x := BelowSplit(t, root, n, d, m);
  }

  /** Some node lies at depth 512 exactly when the root is on a parent cycle or some
      node lies that deep or deeper. */
  lemma DeepOrCyclic(t: Tree, root: string)
    ensures TooDeep(t, root) <==>
              ProperlyBelow(t, root, root) || exists d: nat :: MAX_DEPTH <= d && HasDepth(t, root, d)
  {
    if ProperlyBelow(t, root, root) {
      var d: nat :| 1 <= d && Below(t, root, root, d);
      AroundTheCycle(t, root, d, MAX_DEPTH);
      var e: nat :| MAX_DEPTH <= e && Below(t, root, root, e);
      assert HasDepth(t, root, e);
    }
    forall d: nat | MAX_DEPTH <= d && HasDepth(t, root, d) ensures TooDeep(t, root) {
      ShallowerToo(t, root, d, MAX_DEPTH);
    }
  }

  /** In a subtree that is not too deep every node has one depth. */
  lemma OneDepth(t: Tree, root: string, n: string, d: nat, e: nat)
    requires !TooDeep(t, root) && Below(t, root, n, d) && Below(t, root, n, e)
    ensures d == e < MAX_DEPTH
  {
    DeepOrCyclic(t, root);
    assert HasDepth(t, root, d);
    if d < e { NoSecondDepth(t, root, n, d, e); }
    if e < d { NoSecondDepth(t, root, n, e, d); }
  }

  lemma NoSecondDepth(t: Tree, root: string, n: string, d: nat, e: nat)
    requires d < e && Below(t, root, n, d) && Below(t, root, n, e)
    ensures ProperlyBelow(t, root, root)
  {
    var x := BelowSplit(t, root, n, e, e - d);
    BelowSameTop(t, root, x, n, d);
  }

  // ---- order of paths ----

  /** Below a node, relative paths extend the node's own. */
  lemma {:induction false} RelPathExtends(t: Tree, root: string, a: string, n: string, d: nat, k: nat) returns (rest: string)
    requires Below(t, root, a, d) && Below(t, a, n, k) && 1 <= k
    ensures rest != "" && RelPath(t, n, d + k) == RelPath(t, a, d) + rest
    decreases k
  {
    if k == 1 {
      rest := "/" + t[n].name;
      assert t[n].parent == a;
    } else {
      var r := RelPathExtends(t, root, a, t[n].parent, d, k - 1);
      rest := r + "/" + t[n].name;
      assert RelPath(t, n, d + k) == RelPath(t, t[n].parent, d + (k - 1)) + "/" + t[n].name;
    }
  }

  // ---- sorting and filtering the results ----

  datatype Found = Found(id: string, rel: string, depth: nat)

  ghost predicate Sorted(s: seq<Found>) {
    forall i, j :: 0 <= i < j < |s| ==> !Less(s[j].rel, s[i].rel)
  }

  /** sort.Slice by relative path: some permutation with no inversion. */
  method SortByPath(s: seq<Found>) returns (r: seq<Found>)
    ensures multiset(r) == multiset(s) && Sorted(r)
  {
    r := [];
    for i := 0 to |s|
      invariant multiset(r) == multiset(s[..i]) && Sorted(r)
    {
      r := Insert(r, s[i]);
      assert s[..i + 1] == s[..i] + [s[i]];
    }
    assert s[..|s|] == s;
  }

  method Insert(r: seq<Found>, f: Found) returns (r': seq<Found>)
    requires Sorted(r)
    ensures Sorted(r') && multiset(r') == multiset(r) + multiset{f}
  {
    var k := 0;
    while k < |r| && !Less(f.rel, r[k].rel)
      invariant 0 <= k <= |r|
      invariant forall j :: 0 <= j < k ==> !Less(f.rel, r[j].rel)
    {
      k := k + 1;
    }
    InsertKeepsSorted(r, k, f);
    assert r == r[..k] + r[k..];
    return r[..k] + [f] + r[k..];
  }

  lemma InsertKeepsSorted(r: seq<Found>, k: nat, f: Found)
    requires Sorted(r) && k <= |r|
    requires forall j :: 0 <= j < k ==> !Less(f.rel, r[j].rel)
    requires k < |r| ==> Less(f.rel, r[k].rel)
    ensures Sorted(r[..k] + [f] + r[k..])
  {
    forall j | k <= j < |r| ensures !Less(r[j].rel, f.rel) {
      if Less(r[j].rel, f.rel) {
        LessTrans(r[j].rel, f.rel, r[k].rel);
        LessIrreflexive(r[k].rel);
      }
    }
    var r' := r[..k] + [f] + r[k..];
    forall i, j | 0 <= i < j < |r'| ensures !Less(r'[j].rel, r'[i].rel) {
      assert r'[i] == if i < k then r[i] else if i == k then f else r[i - 1];
      assert r'[j] == if j < k then r[j] else if j == k then f else r[j - 1];
    }
  }

  // ---- the walk ----

  function Kid(t: Tree, f: Found, n: string): Found
    requires n in t
  {
    Found(n, f.rel + "/" + t[n].name, f.depth + 1)
  }

  ghost predicate IsKid(t: Tree, f: Found, k: Found) {
    k.id in t && t[k.id].parent == f.id && k == Kid(t, f, k.id)
  }

  /** The List of a queue entry's children, in any order. */
  method Children(t: Tree, f: Found) returns (kids: seq<Found>)
    ensures NoDup(kids) && forall k :: k in kids <==> IsKid(t, f, k)
  {
    kids := [];
    var left := set n | n in t && t[n].parent == f.id;
    while left != {}
      invariant forall n :: n in left ==> n in t && t[n].parent == f.id
      invariant forall k :: k in kids <==> IsKid(t, f, k) && k.id !in left
      invariant NoDup(kids)
      decreases left
    {
      var n :| n in left;
      left := left - {n};
      kids := kids + [Kid(t, f, n)];
    }
  }

  ghost predicate Placed(t: Tree, root: string, f: Found) {
    Below(t, root, f.id, f.depth) && f.rel == RelPath(t, f.id, f.depth)
  }

  ghost predicate Expanded(t: Tree, q: seq<Found>, f: Found) {
    f.depth < MAX_DEPTH && forall k :: IsKid(t, f, k) ==> k in q
  }

  ghost predicate HasParent(t: Tree, q: seq<Found>, head: nat, k: Found)
    requires head <= |q|
  {
    exists p :: 0 <= p < head && IsKid(t, q[p], k)
  }

  /** `q` is everything queued so far, of which the first `head` entries are done. */
  ghost predicate Explored(t: Tree, root: string, q: seq<Found>, head: nat) {
    && head <= |q|
    && q != [] && q[0] == Found(root, "", 0)
    && (forall i :: 0 <= i < |q| ==> Placed(t, root, q[i]))
    && NoDup(q)
    && (forall j :: 0 <= j < head ==> Expanded(t, q, q[j]))
    && (forall i :: 1 <= i < |q| ==> HasParent(t, q, head, q[i]))
  }

  lemma KidPlaced(t: Tree, root: string, f: Found, k: Found)
    requires Placed(t, root, f) && IsKid(t, f, k)
    ensures Placed(t, root, k)
  {
  }

  /** Two entries with a common child are the same entry. */
  lemma KidFixesParent(t: Tree, root: string, f: Found, g: Found, k: Found)
    requires Placed(t, root, f) && Placed(t, root, g) && IsKid(t, f, k) && IsKid(t, g, k)
    ensures f == g
  {
  }

  lemma KidsAreNew(t: Tree, root: string, q: seq<Found>, head: nat, k: Found)
    requires Explored(t, root, q, head) && head < |q| && IsKid(t, q[head], k)
    ensures k !in q
  {
    forall i | 0 <= i < |q| ensures q[i] != k {
      if 1 <= i && q[i] == k {
        assert HasParent(t, q, head, q[i]);
        var p :| 0 <= p < head && IsKid(t, q[p], q[i]);
        KidFixesParent(t, root, q[p], q[head], k);
      }
    }
  }

  lemma ExploreOne(t: Tree, root: string, q: seq<Found>, head: nat, kids: seq<Found>)
    requires Explored(t, root, q, head) && head < |q| && q[head].depth < MAX_DEPTH
    requires NoDup(kids) && forall k :: k in kids <==> IsKid(t, q[head], k)
    ensures Explored(t, root, q + kids, head + 1)
  {
    var q' := q + kids;
    forall k | k in kids ensures Placed(t, root, k) && k !in q {
      KidPlaced(t, root, q[head], k);
      KidsAreNew(t, root, q, head, k);
    }
    forall i | 0 <= i < |q'| ensures Placed(t, root, q'[i]) {
      if i >= |q| { assert q'[i] == kids[i - |q|]; }
    }
    forall i, j | 0 <= i < j < |q'| ensures q'[i] != q'[j] {
      if j >= |q| { assert q'[j] == kids[j - |q|]; }
    }
    forall j | 0 <= j < head + 1 ensures Expanded(t, q', q'[j]) {
      assert j < head ==> Expanded(t, q, q[j]);
    }
    forall i | 1 <= i < |q'| ensures HasParent(t, q', head + 1, q'[i]) {
      if i < |q| {
        assert HasParent(t, q, head, q[i]);
        var p :| 0 <= p < head && IsKid(t, q[p], q[i]);
        assert IsKid(t, q'[p], q'[i]);
      } else {
        assert q'[i] == kids[i - |q|] && IsKid(t, q'[head], q'[i]);
      }
    }
  }

  /** When the queue is empty everything below the root has been found. */
  lemma {:induction false} AllFound(t: Tree, root: string, q: seq<Found>, n: string, d: nat)
    requires Explored(t, root, q, |q|) && Below(t, root, n, d)
    ensures Found(n, RelPath(t, n, d), d) in q
    decreases d
  {
    if d > 0 {
      var f := Found(t[n].parent, RelPath(t, t[n].parent, d - 1), d - 1);
      AllFound(t, root, q, t[n].parent, d - 1);
      var j :| 0 <= j < |q| && q[j] == f;
      assert Expanded(t, q, q[j]);
      assert IsKid(t, f, Found(n, RelPath(t, n, d), d));
    }
  }

  lemma NothingTooDeep(t: Tree, root: string, q: seq<Found>)
    requires Explored(t, root, q, |q|)
    ensures !TooDeep(t, root)
  {
    if TooDeep(t, root) { DeepIsQueued(t, root, q, MAX_DEPTH); }
  }

  lemma DeepIsQueued(t: Tree, root: string, q: seq<Found>, d: nat)
    requires Explored(t, root, q, |q|) && HasDepth(t, root, d)
    ensures d < MAX_DEPTH
  {
    var n :| Below(t, root, n, d);
    AllFound(t, root, q, n, d);
    var j :| 0 <= j < |q| && q[j] == Found(n, RelPath(t, n, d), d);
    assert Expanded(t, q, q[j]);
  }

  /** Every entry that can still be expanded. */
  ghost function Room(t: Tree, root: string): set<Found> {
    set n, d | n in t.Keys + {root} && 0 <= d < MAX_DEPTH :: Found(n, RelPath(t, n, d), d)
  }

  /** `todo` still holds every expandable entry that is not done. */
  ghost predicate Left(t: Tree, root: string, q: seq<Found>, head: nat, todo: set<Found>)
    requires head <= |q|
  {
    forall f :: f in Room(t, root) && f !in q[..head] ==> f in todo
  }

  lemma LeftOne(t: Tree, root: string, q: seq<Found>, head: nat, kids: seq<Found>, todo: set<Found>)
    requires Explored(t, root, q, head) && head < |q| && q[head].depth < MAX_DEPTH && Left(t, root, q, head, todo)
    ensures q[head] in todo && Left(t, root, q + kids, head + 1, todo - {q[head]})
  {
    assert Placed(t, root, q[head]);
    assert q[head].id in t.Keys + {root};
    assert q[head] in Room(t, root);
    assert (q + kids)[..head + 1] == q[..head] + [q[head]];
  }

  lemma DeepEntry(t: Tree, root: string, q: seq<Found>, head: nat)
    requires Explored(t, root, q, head) && head < |q| && q[head].depth >= MAX_DEPTH
    ensures TooDeep(t, root)
  {
    assert Placed(t, root, q[head]);
    assert HasDepth(t, root, q[head].depth);
    ShallowerToo(t, root, q[head].depth, MAX_DEPTH);
  }

  /** Popping the front of a queue and appending to its end. */
  lemma PopPush<T>(root: T, results: seq<T>, head: nat, kids: seq<T>)
    requires head <= |results|
    ensures ([root] + results)[head..][1..] + kids == ([root] + (results + kids))[head + 1..]
    ensures [root] + results + kids == [root] + (results + kids)
  {
  }

  /** The loop's state: `head` entries are done, `frontier` is what is queued after them. */
  ghost predicate Walking(t: Tree, root: string, frontier: seq<Found>, results: seq<Found>, head: nat, todo: set<Found>) {
    var q := [Found(root, "", 0)] + results;
    head <= |q| && frontier == q[head..] && Explored(t, root, q, head) && Left(t, root, q, head, todo)
  }

  lemma WalkingStep(
    t: Tree, root: string, frontier: seq<Found>, results: seq<Found>, head: nat, todo: set<Found>, kids: seq<Found>)
    requires Walking(t, root, frontier, results, head, todo) && frontier != [] && frontier[0].depth < MAX_DEPTH
    requires NoDup(kids) && forall k :: k in kids <==> IsKid(t, frontier[0], k)
    ensures frontier[0] in todo
    ensures Walking(t, root, frontier[1..] + kids, results + kids, head + 1, todo - {frontier[0]})
  {
    var q := [Found(root, "", 0)] + results;
    ExploreOne(t, root, q, head, kids);
    LeftOne(t, root, q, head, kids, todo);
    PopPush(Found(root, "", 0), results, head, kids);
  }

  lemma WalkingEnds(t: Tree, root: string, frontier: seq<Found>, results: seq<Found>, head: nat, todo: set<Found>)
    requires Walking(t, root, frontier, results, head, todo)
    ensures frontier == [] ==> !TooDeep(t, root) && Explored(t, root, [Found(root, "", 0)] + results, |results| + 1)
    ensures frontier != [] && frontier[0].depth >= MAX_DEPTH ==> TooDeep(t, root)
  {
    var q := [Found(root, "", 0)] + results;
    if frontier == [] {
      NothingTooDeep(t, root, q);
    } else if frontier[0].depth >= MAX_DEPTH {
      DeepEntry(t, root, q, head);
    }
  }

  /** The breadth-first loop: every entry below the root, or a failure when some node lies
      at the depth bound. It ends on cyclic rows too. */
  method Explore(t: Tree, root: string) returns (r: Option<seq<Found>>)
    ensures r.None? <==> TooDeep(t, root)
    ensures r.Some? ==> Explored(t, root, [Found(root, "", 0)] + r.value, |r.value| + 1)
  {
    var frontier, results := [Found(root, "", 0)], [];
    ghost var head, todo := 0, Room(t, root);
    while frontier != []
      invariant Walking(t, root, frontier, results, head, todo)
      decreases todo
    {
      var cur := frontier[0];
      if cur.depth >= MAX_DEPTH {
        WalkingEnds(t, root, frontier, results, head, todo);
        return None;
      }
      var kids := Children(t, cur);
      WalkingStep(t, root, frontier, results, head, todo, kids);
      frontier, results := frontier[1..] + kids, results + kids;
      head, todo := head + 1, todo - {cur};
    }
    WalkingEnds(t, root, frontier, results, head, todo);
    return Some(results);
  }

  // ---- the result ----

  ghost predicate Passes(t: Tree, includeTrashed: bool, n: string) {
    n in t && (includeTrashed || !t[n].trashed)
  }

  /** Ancestors come before descendants, and nothing twice. */
  ghost predicate AncestorsFirst(t: Tree, out: seq<string>) {
    && NoDup(out)
    && (forall i, j :: 0 <= i < |out| && 0 <= j < |out| && ProperlyBelow(t, out[i], out[j]) ==> i < j)
  }

  /** Byte-wise order of the paths relative to the root. */
  ghost predicate ByPath(t: Tree, root: string, out: seq<string>) {
    forall i, j, d: nat, e: nat ::
      0 <= i < j < |out| && Below(t, root, out[i], d) && Below(t, root, out[j], e) ==>
        !Less(RelPath(t, out[j], e), RelPath(t, out[i], d))
  }

  /** Each proper descendant that passes the filter once, ancestors first, in path order. */
  ghost predicate Listing(t: Tree, root: string, includeTrashed: bool, out: seq<string>) {
    && (forall n :: n in out <==> ProperlyBelow(t, root, n) && Passes(t, includeTrashed, n))
    && AncestorsFirst(t, out) && ByPath(t, root, out)
  }

  /** A node below a root that is on no cycle has one depth. */
  lemma OnePlace(t: Tree, root: string, n: string, d: nat, e: nat)
    requires !ProperlyBelow(t, root, root) && Below(t, root, n, d) && Below(t, root, n, e)
    ensures d == e
  {
    if d < e { NoSecondDepth(t, root, n, d, e); }
    if e < d { NoSecondDepth(t, root, n, e, d); }
  }

  /** An ancestor's relative path sorts strictly before its descendant's. */
  lemma AncestorLess(t: Tree, root: string, f: Found, g: Found)
    requires !ProperlyBelow(t, root, root)
    requires Placed(t, root, f) && Placed(t, root, g) && ProperlyBelow(t, f.id, g.id)
    ensures Less(f.rel, g.rel)
  {
    var k: nat :| 1 <= k && Below(t, f.id, g.id, k);
    BelowTrans(t, root, f.id, g.id, f.depth, k);
    OnePlace(t, root, g.id, g.depth, f.depth + k);
    var rest := RelPathExtends(t, root, f.id, g.id, f.depth, k);
    LessPrefix(f.rel, rest);
  }

  /** The indices kept by the final filter, in order. */
  ghost predicate Kept(keep: string -> bool, s: seq<Found>, n: nat, out: seq<string>, at: seq<nat>)
    requires n <= |s|
  {
    && |at| == |out|
    && (forall k :: 0 <= k < |at| ==> at[k] < n && s[at[k]].id == out[k] && keep(out[k]))
    && (forall k, l :: 0 <= k < l < |at| ==> at[k] < at[l])
    && (forall i: nat :: i < n && keep(s[i].id) ==> i in at)
  }

  method Filter(keep: string -> bool, s: seq<Found>) returns (out: seq<string>, ghost at: seq<nat>)
    ensures Kept(keep, s, |s|, out, at)
    ensures forall n :: n in out <==> keep(n) && exists i :: 0 <= i < |s| && s[i].id == n
  {
    out, at := [], [];
    for i := 0 to |s|
      invariant Kept(keep, s, i, out, at)
    {
      if keep(s[i].id) {
        out, at := out + [s[i].id], at + [i];
      }
    }
    KeptMembers(keep, s, out, at);
  }

  lemma KeptMembers(keep: string -> bool, s: seq<Found>, out: seq<string>, at: seq<nat>)
    requires Kept(keep, s, |s|, out, at)
    ensures forall n :: n in out <==> keep(n) && exists i :: 0 <= i < |s| && s[i].id == n
  {
    forall n ensures n in out <==> keep(n) && exists i :: 0 <= i < |s| && s[i].id == n {
      if n in out {
        var k :| 0 <= k < |out| && out[k] == n;
        assert s[at[k]].id == n;
      }
      if keep(n) && exists i :: 0 <= i < |s| && s[i].id == n {
        var i: nat :| i < |s| && s[i].id == n;
        var k :| 0 <= k < |at| && at[k] == i;
        assert out[k] == n;
      }
    }
  }

  /** `s` holds the entries below the root down to a depth, each once. */
  ghost predicate FoundTo(t: Tree, root: string, s: seq<Found>, depth: nat) {
    && NoDup(s)
    && (forall f :: f in s <==> 1 <= f.depth <= depth && Placed(t, root, f))
  }

  /** What the queue holds after the root is below it, within the bound. */
  lemma ExploredIsBelow(t: Tree, root: string, q: seq<Found>, i: nat)
    requires Explored(t, root, q, |q|) && 1 <= i < |q|
    ensures 1 <= q[i].depth <= MAX_DEPTH && Placed(t, root, q[i])
  {
    assert HasParent(t, q, |q|, q[i]) && Expanded(t, q, q[i]);
  }

  lemma TailNoDup(f: Found, fs: seq<Found>)
    requires NoDup([f] + fs)
    ensures NoDup(fs)
  {
    forall i, j | 0 <= i < j < |fs| ensures fs[i] != fs[j] {
      assert ([f] + fs)[i + 1] == fs[i] && ([f] + fs)[j + 1] == fs[j];
    }
  }

  lemma InTail(f: Found, fs: seq<Found>, g: Found)
    ensures g in [f] + fs <==> g == f || g in fs
  {
  }

  /** An entry below the root is one of the walk's results exactly within the bound. */
  lemma ExploredFinds(t: Tree, root: string, results: seq<Found>, f: Found)
    requires Explored(t, root, [Found(root, "", 0)] + results, |results| + 1)
    ensures f in results <==> 1 <= f.depth <= MAX_DEPTH && Placed(t, root, f)
  {
    var q := [Found(root, "", 0)] + results;
    InTail(Found(root, "", 0), results, f);
    if f in results {
      var i :| 0 <= i < |results| && results[i] == f;
      assert q[i + 1] == f;
      ExploredIsBelow(t, root, q, i + 1);
    } else if 1 <= f.depth && Placed(t, root, f) {
      AllFound(t, root, q, f.id, f.depth);
    }
  }

  /** A completed walk found everything below the root, each entry once. */
  lemma ExploredFindsAll(t: Tree, root: string, results: seq<Found>)
    requires Explored(t, root, [Found(root, "", 0)] + results, |results| + 1)
    ensures FoundTo(t, root, results, MAX_DEPTH)
  {
    TailNoDup(Found(root, "", 0), results);
    forall f ensures f in results <==> 1 <= f.depth <= MAX_DEPTH && Placed(t, root, f) {
      ExploredFinds(t, root, results, f);
    }
  }

  lemma FoundPermutes(t: Tree, root: string, r: seq<Found>, s: seq<Found>, depth: nat)
    requires FoundTo(t, root, r, depth) && multiset(s) == multiset(r)
    ensures FoundTo(t, root, s, depth)
  {
    forall f ensures f in s <==> f in r { assert f in multiset(s) <==> f in multiset(r); }
    NoDupCounts(r);
    DupCounts(s);
  }

  ghost predicate BelowWithin(t: Tree, root: string, n: string, depth: nat) {
    exists d: nat :: 1 <= d <= depth && Below(t, root, n, d)
  }

  /** What the filter leaves of the found entries, as a set. */
  lemma FilteredMembers(t: Tree, root: string, keep: string -> bool, s: seq<Found>, out: seq<string>, depth: nat)
    requires FoundTo(t, root, s, depth)
    requires forall n :: n in out <==> keep(n) && exists i :: 0 <= i < |s| && s[i].id == n
    ensures forall n :: n in out <==> keep(n) && BelowWithin(t, root, n, depth)
  {
    forall n ensures (exists i :: 0 <= i < |s| && s[i].id == n) <==> BelowWithin(t, root, n, depth) {
      if i :| 0 <= i < |s| && s[i].id == n { assert s[i] in s; }
      if BelowWithin(t, root, n, depth) {
        var d: nat :| 1 <= d <= depth && Below(t, root, n, d);
        var f := Found(n, RelPath(t, n, d), d);
        assert Placed(t, root, f) && f in s;
      }
    }
  }

  /** Sorted entries of a root on no cycle: each node once, ancestors first, in path order. */
  lemma FilteredInOrder(t: Tree, root: string, keep: string -> bool, s: seq<Found>, out: seq<string>, at: seq<nat>, depth: nat)
    requires !ProperlyBelow(t, root, root)
    requires FoundTo(t, root, s, depth) && Sorted(s) && Kept(keep, s, |s|, out, at)
    ensures AncestorsFirst(t, out) && ByPath(t, root, out)
  {
    FilteredByPath(t, root, keep, s, out, at, depth);
    forall i, j | 0 <= i < j < |out| ensures out[i] != out[j] {
      var f, g := s[at[i]], s[at[j]];
      assert f in s && g in s && f != g;
      if f.id == g.id { OnePlace(t, root, f.id, f.depth, g.depth); }
    }
    forall i, j | 0 <= i < |out| && 0 <= j < |out| && ProperlyBelow(t, out[i], out[j]) ensures i < j {
      var f, g := s[at[i]], s[at[j]];
      assert f in s && g in s;
      AncestorLess(t, root, f, g);
      LessIrreflexive(f.rel);
    }
  }

  lemma FilteredByPath(t: Tree, root: string, keep: string -> bool, s: seq<Found>, out: seq<string>, at: seq<nat>, depth: nat)
    requires !ProperlyBelow(t, root, root)
    requires FoundTo(t, root, s, depth) && Sorted(s) && Kept(keep, s, |s|, out, at)
    ensures ByPath(t, root, out)
  {
    forall i, j, d: nat, e: nat | 0 <= i < j < |out| && Below(t, root, out[i], d) && Below(t, root, out[j], e)
      ensures !Less(RelPath(t, out[j], e), RelPath(t, out[i], d))
    {
      var f, g := s[at[i]], s[at[j]];
      assert f in s && g in s && at[i] < at[j];
      OnePlace(t, root, out[i], d, f.depth);
      OnePlace(t, root, out[j], e, g.depth);
    }
  }

  /** Explore, sort, filter. */
  method Descendants(t: Tree, root: string, includeTrashed: bool) returns (r: Option<seq<string>>)
    ensures r.None? <==> TooDeep(t, root)
    ensures r.Some? ==> Listing(t, root, includeTrashed, r.value)
  {
    var found := Explore(t, root);
    if found.None? { return None; }
    ExploredFindsAll(t, root, found.value);
    DeepOrCyclic(t, root);
    var sorted := SortByPath(found.value);
    FoundPermutes(t, root, found.value, sorted, MAX_DEPTH);
    var keep := n => n in t && (includeTrashed || !t[n].trashed);
    var out, at := Filter(keep, sorted);
    FilteredMembers(t, root, keep, sorted, out, MAX_DEPTH);
    FilteredInOrder(t, root, keep, sorted, out, at, MAX_DEPTH);
    forall n ensures BelowWithin(t, root, n, MAX_DEPTH) <==> ProperlyBelow(t, root, n) {
      if ProperlyBelow(t, root, n) {
        var d: nat :| 1 <= d && Below(t, root, n, d);
        OneDepth(t, root, n, d, d);
      }
    }
    return Some(out);
  }

  // ---- the recursive query ----

  /** The entries at exactly this depth, each once. */
  ghost predicate Level(t: Tree, root: string, level: seq<Found>, depth: nat) {
    NoDup(level) && forall f :: f in level <==> f.depth == depth && Placed(t, root, f)
  }

  /** The recursive term: the children of every row of the working table. */
  method NextLevel(t: Tree, root: string, level: seq<Found>, ghost depth: nat) returns (next: seq<Found>)
    requires Level(t, root, level, depth)
    ensures Level(t, root, next, depth + 1)
  {
    next := [];
    for i := 0 to |level|
      invariant NoDup(next) && forall k :: k in next <==> exists j :: 0 <= j < i && IsKid(t, level[j], k)
    {
      var kids := Children(t, level[i]);
      KidsElsewhere(t, root, level, i, depth);
      NoDupJoin(next, kids);
      next := next + kids;
    }
    LevelDown(t, root, level, next, depth);
  }

  /** Entries of one level have no child in common. */
  lemma KidsElsewhere(t: Tree, root: string, level: seq<Found>, i: nat, depth: nat)
    requires Level(t, root, level, depth) && i < |level|
    ensures forall j, k :: 0 <= j < i && IsKid(t, level[j], k) ==> !IsKid(t, level[i], k)
  {
    forall j, k | 0 <= j < i && IsKid(t, level[j], k) ensures !IsKid(t, level[i], k) {
      assert level[i] in level && level[j] in level;
      if IsKid(t, level[i], k) { KidFixesParent(t, root, level[j], level[i], k); }
    }
  }

  lemma LevelDown(t: Tree, root: string, level: seq<Found>, next: seq<Found>, depth: nat)
    requires Level(t, root, level, depth) && NoDup(next)
    requires forall k :: k in next <==> exists j :: 0 <= j < |level| && IsKid(t, level[j], k)
    ensures Level(t, root, next, depth + 1)
  {
    forall k: Found ensures k in next <==> k.depth == depth + 1 && Placed(t, root, k) {
      if k in next {
        var j :| 0 <= j < |level| && IsKid(t, level[j], k);
        assert level[j] in level;
        KidPlaced(t, root, level[j], k);
      }
      if k.depth == depth + 1 && Placed(t, root, k) {
        var f := Found(t[k.id].parent, RelPath(t, t[k.id].parent, depth), depth);
        assert Placed(t, root, f) && IsKid(t, f, k);
        var j :| 0 <= j < |level| && level[j] == f;
        assert IsKid(t, level[j], k);
      }
    }
  }

  /** The recursive CTE, level by level, ordered by relative path and filtered; it stops at the
      depth bound without an error. On a root that is on a cycle a row can come back more than
      once, as UNION ALL has it. */
  method CteDescendants(t: Tree, root: string, includeTrashed: bool) returns (out: seq<string>)
    ensures forall n :: n in out <==>
              root in t && n != root && BelowWithin(t, root, n, MAX_DEPTH) && Passes(t, includeTrashed, n)
    ensures !ProperlyBelow(t, root, root) ==> AncestorsFirst(t, out) && ByPath(t, root, out)
  {
    if root !in t { return []; }
    var level, all := [Found(root, "", 0)], [];
    for d := 0 to MAX_DEPTH
      invariant Level(t, root, level, d) && FoundTo(t, root, all, d)
    {
      level := NextLevel(t, root, level, d);
      LevelAdds(t, root, all, level, d);
      all := all + level;
    }
    var sorted := SortByPath(all);
    FoundPermutes(t, root, all, sorted, MAX_DEPTH);
    var keep := n => n in t && n != root && (includeTrashed || !t[n].trashed);
    ghost var at;
    out, at := Filter(keep, sorted);
    FilteredMembers(t, root, keep, sorted, out, MAX_DEPTH);
    if !ProperlyBelow(t, root, root) { FilteredInOrder(t, root, keep, sorted, out, at, MAX_DEPTH); }
  }

  lemma LevelAdds(t: Tree, root: string, all: seq<Found>, level: seq<Found>, d: nat)
    requires FoundTo(t, root, all, d) && Level(t, root, level, d + 1)
    ensures FoundTo(t, root, all + level, d + 1)
  {
    NoDupJoin(all, level);
  }
}
