/** The file tree as rows: chains to the root, derived paths, and finding a node by path. */
module FsTree {
  import opened FsForest
  import opened FsPath
  import opened Wrappers

  datatype Node = Node(parent: string, name: string, kind: string, blob: string, locked: bool, trashed: bool)

  type Tree = map<string, Node>

  function LinksOf(t: Tree): Links {
    map id | id in t :: t[id].parent
  }

  // ---- chains ----

  /** `c` lists the rows from `id` up to a node directly under the root. */
  ghost predicate IsChain(t: Tree, id: string, c: seq<string>) {
    && c != []
    && (forall k :: 0 <= k < |c| ==> c[k] == Up(LinksOf(t), id, k) && c[k] in t)
    && Up(LinksOf(t), id, |c|) == ""
  }

  lemma ChainNodes(t: Tree, id: string, c: seq<string>)
    requires "" !in t && IsChain(t, id, c)
    ensures c[0] == id && id in t
    ensures forall n: nat :: n < |c| ==> Up(LinksOf(t), id, n) != ""
  {
    assert Up(LinksOf(t), id, 0) == id;
    forall n: nat | n < |c| ensures Up(LinksOf(t), id, n) != "" { assert c[n] in t; }
  }

  lemma ChainUnique(t: Tree, id: string, c: seq<string>, c': seq<string>)
    requires "" !in t && IsChain(t, id, c) && IsChain(t, id, c')
    ensures c == c'
  {
    ChainNodes(t, id, c);
    ChainNodes(t, id, c');
  }

  /** A chain visits a node once: a second visit would repeat for ever. */
  lemma ChainDistinct(t: Tree, id: string, c: seq<string>, i: nat, j: nat)
    requires "" !in t && IsChain(t, id, c) && i < j < |c|
    ensures c[i] != c[j]
  {
    var l := LinksOf(t);
    UpAdd(l, id, i, |c| - j);
    UpAdd(l, id, j, |c| - j);
    assert c[i + (|c| - j)] in t;
  }

  lemma ChainCons(t: Tree, id: string, p: string, pc: seq<string>)
    requires id in t && t[id].parent == p && IsChain(t, p, pc)
    ensures IsChain(t, id, [id] + pc)
  {
    var l, c := LinksOf(t), [id] + pc;
    forall k | 0 <= k < |c| ensures c[k] == Up(l, id, k) && c[k] in t {
      if k > 0 {
        UpShift(l, id, k - 1);
        assert c[k] == pc[k - 1];
      }
    }
    UpShift(l, id, |pc|);
  }

  lemma ChainTail(t: Tree, id: string, c: seq<string>)
    requires "" !in t && IsChain(t, id, c) && |c| > 1
    ensures c[0] == id && id in t && IsChain(t, t[id].parent, c[1..])
  {
    ChainNodes(t, id, c);
    var l := LinksOf(t);
    forall k | 0 <= k < |c[1..]| ensures c[1..][k] == Up(l, t[id].parent, k) && c[1..][k] in t {
      UpShift(l, id, k);
      assert c[1..][k] == c[k + 1];
    }
    UpShift(l, id, |c| - 1);
  }

  /** A change to one row leaves a chain that does not visit it alone. */
  lemma ChainElsewhere(t: Tree, t': Tree, id: string, c: seq<string>, x: string)
    requires IsChain(t, id, c) && x !in c
    requires forall y :: y != x ==> (y in t <==> y in t') && (y in t ==> t'[y] == t[y])
    ensures IsChain(t', id, c) && Names(t', c) == Names(t, c)
  {
    var l, l' := LinksOf(t), LinksOf(t');
    forall k: nat | k <= |c| ensures Up(l', id, k) == Up(l, id, k) {
      forall j: nat | j < k ensures Up(l, id, j) != x { assert c[j] in c; }
      UpBeforeChange(l, l', x, id, k);
    }
    forall k | 0 <= k < |c| ensures c[k] in t' && t'[c[k]] == t[c[k]] { assert c[k] in c; }
  }

  /** The names along a chain, root first. */
  function Names(t: Tree, c: seq<string>): (r: seq<string>)
    requires forall k :: 0 <= k < |c| ==> c[k] in t
    ensures |r| == |c| && forall k :: 0 <= k < |c| ==> r[k] == t[c[|c| - 1 - k]].name
  {
    if c == [] then [] else Names(t, c[1..]) + [t[c[0]].name]
  }

  /** Walks parent_id up to the root; fails on a missing row or beyond the depth bound. */
  method ChainToRoot(t: Tree, id: string) returns (r: Option<seq<string>>)
    requires "" !in t && id in t
    ensures r.Some? ==> IsChain(t, id, r.value) && |r.value| <= MAX_DEPTH + 1
    ensures r.None? ==> forall c :: IsChain(t, id, c) ==> |c| > MAX_DEPTH + 1
  {
    ghost var l := LinksOf(t);
    var chain, node := [id], id;
    while t[node].parent != ""
      invariant 1 <= |chain| <= MAX_DEPTH + 1
      invariant node == Up(l, id, |chain| - 1) && node in t
      invariant forall k :: 0 <= k < |chain| ==> chain[k] == Up(l, id, k) && chain[k] in t
      decreases MAX_DEPTH + 1 - |chain|
    {
      var parent := t[node].parent;
      assert parent == Up(l, id, |chain|);
      if |chain| > MAX_DEPTH {
        StillWalking(t, id, |chain|);
        return None;
      }
      if parent !in t {
        StillWalking(t, id, |chain|);
        return None;
      }
      chain, node := chain + [parent], parent;
    }
    return Some(chain);
  }

  /** A walk that has not ended after n steps: every chain goes on, through a row. */
  lemma StillWalking(t: Tree, id: string, n: nat)
    requires "" !in t && Up(LinksOf(t), id, n) != ""
    ensures forall c :: IsChain(t, id, c) ==> |c| > n && Up(LinksOf(t), id, n) in t
  {
    forall c | IsChain(t, id, c) ensures |c| > n && Up(LinksOf(t), id, n) in t {
      if |c| <= n {
        UpEnds(LinksOf(t), id, |c|, n);
      } else {
        assert c[n] in t;
      }
    }
  }

  // ---- paths ----

  /** The path of a node, when its chain is complete and within the depth bound. */
  ghost function PathOf(t: Tree, id: string): Option<string> {
    if exists c :: IsChain(t, id, c) && |c| <= MAX_DEPTH + 1 then
      var c :| IsChain(t, id, c) && |c| <= MAX_DEPTH + 1;
      Some(Print(Names(t, c)))
    else None
  }

  lemma PathOfChain(t: Tree, id: string, c: seq<string>)
    requires "" !in t && IsChain(t, id, c)
    ensures PathOf(t, id) == if |c| <= MAX_DEPTH + 1 then Some(Print(Names(t, c))) else None
  {
    forall c' | IsChain(t, id, c') ensures c' == c { ChainUnique(t, id, c, c'); }
  }

  /** Builds "/a/b/name" from a chain, last entry first. */
  method PathFromChain(t: Tree, c: seq<string>) returns (path: string)
    requires forall k :: 0 <= k < |c| ==> c[k] in t
    ensures path == Print(Names(t, c))
  {
    path := "";
    for i := |c| downto 0
      invariant path == Print(Names(t, c)[..|c| - i])
    {
      assert Names(t, c)[..|c| - i] == Names(t, c)[..|c| - i - 1] + [t[c[i]].name];
      PrintSnoc(Names(t, c)[..|c| - i - 1], t[c[i]].name);
      path := path + "/" + t[c[i]].name;
    }
    assert Names(t, c)[..|c|] == Names(t, c);
  }

  method NodePath(t: Tree, id: string) returns (r: Option<string>)
    requires "" !in t
    ensures r == PathOf(t, id)
  {
    if id !in t {
      assert Up(LinksOf(t), id, 0) == id;
      return None;
    }
    var chain := ChainToRoot(t, id);
    if chain.None? { return None; }
    var path := PathFromChain(t, chain.value);
    PathOfChain(t, id, chain.value);
    return Some(path);
  }

  // ---- resolution ----

  ghost predicate LiveChild(t: Tree, parent: string, name: string, id: string) {
    id in t && t[id].parent == parent && t[id].name == name && !t[id].trashed
  }

  function Last(ids: seq<string>): string {
    if ids == [] then "" else ids[|ids| - 1]
  }

  /** `ids` are live rows spelling `names` from the root down. */
  ghost predicate Descends(t: Tree, names: seq<string>, ids: seq<string>) {
    && |ids| == |names|
    && (ids != [] ==>
          && Descends(t, names[..|ids| - 1], ids[..|ids| - 1])
          && LiveChild(t, Last(ids[..|ids| - 1]), names[|ids| - 1], ids[|ids| - 1]))
  }

  /** The partial unique index on (parent_id, name) of live rows. */
  ghost predicate UniqueLive(t: Tree) {
    forall p, n, a, b :: LiveChild(t, p, n, a) && LiveChild(t, p, n, b) ==> a == b
  }

  /** `id` is an answer to `path`. */
  ghost predicate Finds(t: Tree, path: string, id: string) {
    && SplitFsPath(path).Some?
    && exists ids :: ids != [] && Descends(t, SplitFsPath(path).value, ids) && Last(ids) == id
  }

  lemma {:induction false} DescendsUnique(t: Tree, names: seq<string>, a: seq<string>, b: seq<string>)
    requires UniqueLive(t) && Descends(t, names, a) && Descends(t, names, b)
    ensures a == b
  {
    if names != [] {
      var n := |names| - 1;
      DescendsUnique(t, names[..n], a[..n], b[..n]);
      assert a == a[..n] + [a[n]] && b == b[..n] + [b[n]];
    }
  }

  lemma {:induction false} DescendsPrefix(t: Tree, names: seq<string>, ids: seq<string>, i: nat)
    requires Descends(t, names, ids) && i <= |ids|
    ensures Descends(t, names[..i], ids[..i])
  {
    if i == |ids| {
      assert names[..i] == names && ids[..i] == ids;
    } else {
      var n := |ids| - 1;
      DescendsPrefix(t, names[..n], ids[..n], i);
      assert names[..n][..i] == names[..i] && ids[..n][..i] == ids[..i];
    }
  }

  lemma DescendsSnoc(t: Tree, names: seq<string>, ids: seq<string>, name: string, id: string)
    requires Descends(t, names, ids) && LiveChild(t, Last(ids), name, id)
    ensures Descends(t, names + [name], ids + [id])
  {
    assert (names + [name])[..|ids|] == names && (ids + [id])[..|ids|] == ids;
  }

  /** The List query of one path step, Limit 1. */
  method FindChild(t: Tree, parent: string, name: string) returns (r: Option<string>)
    ensures r.Some? ==> LiveChild(t, parent, name, r.value)
    ensures r.None? ==> forall id :: !LiveChild(t, parent, name, id)
  {
    var hits := set id | id in t && t[id].parent == parent && t[id].name == name && !t[id].trashed;
    assert forall id :: LiveChild(t, parent, name, id) ==> id in hits;
    if hits == {} { return None; }
    var id :| id in hits;
    return Some(id);
  }

  /** Descends one segment at a time; with unique live siblings a failure is final. */
  method GetNodeByPath(t: Tree, path: string) returns (r: Option<string>)
    ensures r.Some? ==> Finds(t, path, r.value)
    ensures r.None? && UniqueLive(t) ==> forall id :: !Finds(t, path, id)
  {
    var segs := SplitFsPath(path);
    if segs.None? { return None; }
    PathRoundTrip(path, []);
    ghost var ids;
    r, ids := Descend(t, segs.value);
  }

  method Descend(t: Tree, names: seq<string>) returns (r: Option<string>, ghost ids: seq<string>)
    ensures r.Some? ==> Descends(t, names, ids) && r.value == Last(ids)
    ensures r.None? && UniqueLive(t) ==> forall full :: !Descends(t, names, full)
  {
    var parentID := "";
    ids := [];
    for i := 0 to |names|
      invariant |ids| == i && Descends(t, names[..i], ids) && parentID == Last(ids)
    {
      var next := FindChild(t, parentID, names[i]);
      if next.None? {
        if UniqueLive(t) {
          forall full ensures !Descends(t, names, full) { DeadEnd(t, names, full, ids, i); }
        }
        return None, ids;
      }
      DescendsSnoc(t, names[..i], ids, names[i], next.value);
      assert names[..i + 1] == names[..i] + [names[i]];
      ids, parentID := ids + [next.value], next.value;
    }
    assert names[..|names|] == names;
    return Some(parentID), ids;
  }

  lemma DeadEnd(t: Tree, names: seq<string>, full: seq<string>, ids: seq<string>, i: nat)
    requires UniqueLive(t) && i < |names| && Descends(t, names[..i], ids)
    requires forall id :: !LiveChild(t, Last(ids), names[i], id)
    ensures !Descends(t, names, full)
  {
    if Descends(t, names, full) {
      DescendsPrefix(t, names, full, i + 1);
      assert names[..i + 1][..i] == names[..i] && full[..i + 1][..i] == full[..i];
      DescendsUnique(t, names[..i], ids, full[..i]);
    }
  }

  function Rev(s: seq<string>): (r: seq<string>)
    ensures |r| == |s| && forall k :: 0 <= k < |s| ==> r[k] == s[|s| - 1 - k]
  {
    if s == [] then [] else Rev(s[1..]) + [s[0]]
  }

  /** The two-index loop that turns a chain round. */
  method ReverseInPlace(a: array<string>)
    modifies a
    ensures a[..] == Rev(old(a[..]))
  {
    var i, j := 0, a.Length - 1;
    while i < j
      invariant 0 <= i <= j + 1 && i + j == a.Length - 1
      invariant forall k :: 0 <= k < i || j < k < a.Length ==> a[k] == old(a[a.Length - 1 - k])
      invariant forall k :: i <= k <= j ==> a[k] == old(a[k])
    {
      a[i], a[j] := a[j], a[i];
      i, j := i + 1, j - 1;
    }
  }

  /** The rows above a node, root first. */
  method Ancestors(t: Tree, id: string) returns (r: Option<seq<string>>)
    requires "" !in t
    ensures r.Some? <==> exists c :: IsChain(t, id, c) && |c| <= MAX_DEPTH + 1
    ensures r.Some? ==> forall c :: IsChain(t, id, c) ==> r.value == Rev(c[1..])
  {
    if id !in t {
      assert Up(LinksOf(t), id, 0) == id;
      return None;
    }
    var chain := ChainToRoot(t, id);
    if chain.None? { return None; }
    forall c | IsChain(t, id, c) ensures c == chain.value { ChainUnique(t, id, c, chain.value); }
    var rest := chain.value[1..];
    var a := new string[|rest|](i requires 0 <= i < |rest| => rest[i]);
    assert a[..] == rest;
    ReverseInPlace(a);
    return Some(a[..]);
  }

  /** A live chain, read from the root down, is a descent along its own names. */
  lemma {:induction false} ChainDescends(t: Tree, id: string, c: seq<string>)
    requires "" !in t && IsChain(t, id, c) && forall k :: 0 <= k < |c| ==> !t[c[k]].trashed
    ensures Descends(t, Names(t, c), Rev(c)) && Last(Rev(c)) == id
    decreases |c|
  {
    ChainNodes(t, id, c);
    if |c| == 1 {
      assert t[id].parent == Up(LinksOf(t), id, 1);
      DescendsSnoc(t, [], [], t[id].name, id);
    } else {
      ChainTail(t, id, c);
      ChainDescends(t, t[id].parent, c[1..]);
      DescendsSnoc(t, Names(t, c[1..]), Rev(c[1..]), t[id].name, id);
    }
  }

  lemma RootChild(t: Tree, id: string)
    requires "" !in t && id in t && t[id].parent == ""
    ensures IsChain(t, id, [id]) && Names(t, [id]) == [t[id].name]
  {
    assert Up(LinksOf(t), id, 0) == id && Up(LinksOf(t), id, 1) == "";
  }

  lemma NamesCons(t: Tree, id: string, c: seq<string>)
    requires id in t && forall k :: 0 <= k < |c| ==> c[k] in t
    ensures Names(t, [id] + c) == Names(t, c) + [t[id].name]
  {
    assert ([id] + c)[1..] == c;
  }

  /** A descent, read backwards, is a chain with the same names. */
  lemma {:induction false} DescentIsChain(t: Tree, names: seq<string>, ids: seq<string>)
    requires ids != [] && Descends(t, names, ids) && "" !in t
    ensures IsChain(t, Last(ids), Rev(ids)) && Names(t, Rev(ids)) == names
    decreases |ids|
  {
    var n := |ids| - 1;
    var pre, id := ids[..n], ids[n];
    assert names == names[..n] + [t[id].name];
    assert Rev(ids) == [id] + Rev(pre);
    if pre == [] {
      RootChild(t, id);
      assert Rev(ids) == [id] && names == [t[id].name];
    } else {
      DescentIsChain(t, names[..n], pre);
      ChainCons(t, id, Last(pre), Rev(pre));
      NamesCons(t, id, Rev(pre));
    }
  }

  /** Resolving a printed path returns the node it was printed for, and nothing else. */
  lemma PrintedPathResolves(t: Tree, id: string, c: seq<string>)
    requires "" !in t && UniqueLive(t) && IsChain(t, id, c) && |c| <= MAX_DEPTH + 1
    requires forall k :: 0 <= k < |c| ==> !t[c[k]].trashed && ValidName(t[c[k]].name)
    ensures PathOf(t, id).Some? && forall x :: Finds(t, PathOf(t, id).value, x) <==> x == id
  {
    PathOfChain(t, id, c);
    var names := Names(t, c);
    forall n | n in names ensures n != "" && '/' !in n {
      var k :| 0 <= k < |names| && names[k] == n;
      assert ValidName(t[c[|c| - 1 - k]].name);
    }
    PathRoundTrip("", names);
    ChainDescends(t, id, c);
    forall ids | Descends(t, names, ids) ensures ids == Rev(c) {
      DescendsUnique(t, names, ids, Rev(c));
    }
    assert Rev(c) != [];
  }

  /** A path that resolves prints back unchanged, up to the depth bound. */
  lemma ResolvedPathPrintsBack(t: Tree, path: string, id: string)
    requires "" !in t && Finds(t, path, id)
    ensures PathOf(t, id) == if |SplitFsPath(path).value| <= MAX_DEPTH + 1 then Some(path) else None
  {
    var names := SplitFsPath(path).value;
    var ids :| ids != [] && Descends(t, names, ids) && Last(ids) == id;
    DescentIsChain(t, names, ids);
    PathOfChain(t, id, Rev(ids));
    PathRoundTrip(path, []);
  }

  // ---- the paths that rename and move echo ----

  /** Renaming changes the last name of the path and nothing else. */
  lemma RenamedPath(t: Tree, id: string, newName: string, c: seq<string>)
    requires "" !in t && IsChain(t, id, c) && |c| <= MAX_DEPTH + 1
    ensures id in t
    ensures PathOf(t, id) == Some(Print(Names(t, c[1..]) + [t[id].name]))
    ensures PathOf(t[id := t[id].(name := newName)], id) == Some(ChildPath(Print(Names(t, c[1..])), newName))
  {
    ChainNodes(t, id, c);
    var t' := t[id := t[id].(name := newName)];
    RenamedChain(t, id, newName, c);
    PathOfChain(t, id, c);
    PathOfChain(t', id, c);
    PrintSnoc(Names(t, c[1..]), newName);
  }

  /** A rename keeps the chain and every name above the node. */
  lemma RenamedChain(t: Tree, id: string, newName: string, c: seq<string>)
    requires "" !in t && IsChain(t, id, c) && id in t && c[0] == id
    ensures
      var t' := t[id := t[id].(name := newName)];
      IsChain(t', id, c) && "" !in t' && Names(t', c) == Names(t, c[1..]) + [newName]
  {
    var t' := t[id := t[id].(name := newName)];
    assert LinksOf(t') == LinksOf(t);
    forall k | 1 <= k < |c| ensures c[k] != id { ChainDistinct(t, id, c, 0, k); }
    assert Names(t', c[1..]) == Names(t, c[1..]);
  }

  /** Renaming echoes the new path exactly when the old name holds no slash. */
  lemma RenameEcho(t: Tree, id: string, newName: string, c: seq<string>)
    requires "" !in t && IsChain(t, id, c) && |c| <= MAX_DEPTH + 1
    ensures id in t && PathOf(t, id).Some?
    ensures
      var echo := ChildPath(DirOf(PathOf(t, id).value), newName);
      PathOf(t[id := t[id].(name := newName)], id) == Some(echo) <==> '/' !in t[id].name
  {
    RenamedPath(t, id, newName, c);
    var pre := Names(t, c[1..]);
    DirOfPrint(pre, t[id].name);
    ChildPathInjective(DirOf(Print(pre + [t[id].name])), Print(pre), newName);
  }

  lemma ChildPathInjective(a: string, b: string, name: string)
    ensures ChildPath(a, name) == ChildPath(b, name) ==> a == b
  {
    var x, y := ChildPath(a, name), ChildPath(b, name);
    assert x[..|x| - |name| - 1] == a && y[..|y| - |name| - 1] == b;
  }

  /** A row created or moved below a parent whose chain avoids it has the parent's path
      and its own name; below a parent at the depth bound its path cannot be printed. */
  lemma EchoBelow(t: Tree, id: string, node: Node, pc: seq<string>)
    requires "" !in t && id != "" && IsChain(t, node.parent, pc) && id !in pc && |pc| <= MAX_DEPTH + 1
    ensures PathOf(t, node.parent).Some?
    ensures PathOf(t[id := node], id) ==
              if |pc| <= MAX_DEPTH then Some(ChildPath(PathOf(t, node.parent).value, node.name)) else None
  {
    var t' := t[id := node];
    ChainElsewhere(t, t', node.parent, pc, id);
    PathOfChain(t, node.parent, pc);
    var c := [id] + pc;
    ChainCons(t', id, node.parent, pc);
    PathOfChain(t', id, c);
    assert c[1..] == pc;
    PrintSnoc(Names(t, pc), node.name);
  }

  lemma RootChain(t: Tree, id: string)
    requires "" !in t && id in t && t[id].parent == ""
    ensures IsChain(t, id, [id])
  {
    var l := LinksOf(t);
    assert Up(l, id, 0) == id;
    assert Up(l, id, 1) == Up(l, "", 0) == "";
  }

  /** Directly under the root the path is always printed. */
  lemma EchoAtRoot(t: Tree, id: string, node: Node)
    requires "" !in t && id != "" && node.parent == ""
    ensures PathOf(t[id := node], id) == Some(ChildPath("", node.name))
  {
    RootChain(t[id := node], id);
    PathOfChain(t[id := node], id, [id]);
    assert Names(t[id := node], [id]) == [] + [node.name];
    PrintSnoc([], node.name);
  }
}
