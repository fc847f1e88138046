/** The file-tree operations over one tenant's rows, run one after another. */
module FsOps {
  import opened FsForest
  import opened FsPath
  import opened FsTree
  import FsMove
  import W = FsWalk
  import opened Wrappers
  import opened StringOrder

  // ---- what every run keeps ----

  /** Acyclic rows with addressable names and at most one live row per (parent, name). */
  ghost predicate Sound(t: Tree) {
    && "" !in t
    && Acyclic(LinksOf(t))
    && UniqueLive(t)
    && forall id :: id in t ==> ValidName(t[id].name)
  }

  predicate IsFolder(t: Tree, id: string) {
    id == "" || (id in t && t[id].kind == "folder")
  }

  /** Every row sits under the root or an existing folder. */
  ghost predicate Anchored(t: Tree) {
    forall id :: id in t ==> IsFolder(t, t[id].parent)
  }

  /** No row uses or refers to an id that was never handed out. */
  ghost predicate Known(t: Tree, used: set<string>) {
    forall id :: id in t ==> id in used && (t[id].parent == "" || t[id].parent in used)
  }

  /** The chain of a parent is short enough for `bound` more checks. */
  ghost predicate ChainWithin(t: Tree, p: string, bound: nat) {
    p == "" || exists c :: IsChain(t, p, c) && |c| <= bound
  }

  ghost predicate NoLive(t: Tree, parent: string, name: string) {
    forall id :: !LiveChild(t, parent, name, id)
  }

  // ---- create ----

  ghost predicate CanCreate(t: Tree, parent: string, name: string) {
    && ValidName(name)
    && IsFolder(t, parent)
    && ChainWithin(t, parent, MAX_DEPTH + 1)
    && NoLive(t, parent, name)
  }

  lemma CreateKeeps(t: Tree, used: set<string>, id: string, node: Node)
    requires Sound(t) && Known(t, used) && id != "" && id !in used
    requires IsFolder(t, node.parent) && ValidName(node.name) && NoLive(t, node.parent, node.name)
    ensures Sound(t[id := node]) && Known(t[id := node], used + {id})
    ensures Anchored(t) ==> Anchored(t[id := node])
  {
    var t' := t[id := node];
    assert LinksOf(t') == LinksOf(t)[id := node.parent];
    LeafKeepsAcyclic(LinksOf(t), id, node.parent);
    forall p, n, a, b | LiveChild(t', p, n, a) && LiveChild(t', p, n, b) ensures a == b {
      assert a != id ==> LiveChild(t, p, n, a);
      assert b != id ==> LiveChild(t, p, n, b);
    }
  }

  // ---- rename and move ----

  /** A row whose place or name changes to one no live row has keeps siblings unique. */
  lemma MovedSiblings(t: Tree, id: string, node: Node)
    requires UniqueLive(t) && id in t && NoLive(t, node.parent, node.name)
    ensures UniqueLive(t[id := node])
  {
    var t' := t[id := node];
    forall p, n, a, b | LiveChild(t', p, n, a) && LiveChild(t', p, n, b) ensures a == b {
      assert a != id ==> LiveChild(t, p, n, a);
      assert b != id ==> LiveChild(t, p, n, b);
    }
  }

  lemma RenameKeeps(t: Tree, used: set<string>, id: string, name: string)
    requires Sound(t) && Known(t, used) && id in t && ValidName(name) && NoLive(t, t[id].parent, name)
    ensures
      var t' := t[id := t[id].(name := name)];
      Sound(t') && Known(t', used) && (Anchored(t) ==> Anchored(t'))
  {
    var t' := t[id := t[id].(name := name)];
    assert LinksOf(t') == LinksOf(t);
    MovedSiblings(t, id, t[id].(name := name));
  }

  function MoveBound(sql: bool): nat {
    if sql then MAX_DEPTH else MAX_DEPTH + 1
  }

  ghost predicate ClearChain(t: Tree, id: string, p: string, bound: nat) {
    exists c :: IsChain(t, p, c) && |c| <= bound && id !in c
  }

  ghost predicate CanMove(t: Tree, sql: bool, id: string, p: string) {
    && id in t && !t[id].locked
    && IsFolder(t, p)
    && (p == "" || ClearChain(t, id, p, MoveBound(sql)))
    && NoLive(t, p, t[id].name)
  }

  /** On the staged row the guard passes exactly when the parent's chain fits its bound. */
  lemma GuardVerdict(t: Tree, id: string, p: string, c: seq<string>, bound: nat)
    requires "" !in t && id in t && IsChain(t, p, c) && id !in c
    ensures FsMove.Decide(LinksOf(t[id := t[id].(parent := p)]), id, p, bound).Pass? <==> |c| <= bound
  {
    var t' := t[id := t[id].(parent := p)];
    ChainElsewhere(t, t', p, c, id);
    ChainNodes(t', p, c);
    var l := LinksOf(t');
    if |c| <= bound {
      forall n: nat | |c| <= n ensures Up(l, p, n) == "" { UpEnds(l, p, |c|, n); }
      forall n: nat ensures Up(l, p, n) != id { if n < |c| { assert c[n] in c; } }
    }
  }

  lemma MoveKeeps(t: Tree, used: set<string>, sql: bool, id: string, p: string)
    requires Sound(t) && Known(t, used) && CanMove(t, sql, id, p)
    ensures
      var t' := t[id := t[id].(parent := p)];
      Sound(t') && Known(t', used) && (Anchored(t) ==> Anchored(t'))
  {
    var t', l := t[id := t[id].(parent := p)], LinksOf(t);
    assert LinksOf(t') == Relink(l, id, p);
    if p == "" {
      CutKeepsAcyclic(l, LinksOf(t'));
    } else {
      var c :| IsChain(t, p, c) && |c| <= MoveBound(sql) && id !in c;
      GuardVerdict(t, id, p, c, MoveBound(sql));
      FsMove.PassMeansNoCycle(l, id, p, MoveBound(sql));
      RelinkKeepsAcyclic(l, id, p);
    }
    MovedSiblings(t, id, t[id].(parent := p));
  }

  // ---- subtrees ----

  /** What subtree(id) returns: `id` and every row below it, on SQL at most 512 levels down. */
  ghost predicate InSubtree(t: Tree, sql: bool, id: string, n: string) {
    exists d: nat :: W.Below(t, id, n, d) && (sql ==> d <= MAX_DEPTH)
  }

  /** Nothing lies deeper than the SQL walk looks. */
  ghost predicate WithinReach(t: Tree, sql: bool, id: string) {
    sql ==> !W.HasDepth(t, id, MAX_DEPTH + 1)
  }

  lemma {:induction false} BelowIsUp(t: Tree, root: string, n: string, d: nat)
    requires W.Below(t, root, n, d)
    ensures Up(LinksOf(t), n, d) == root
    decreases d
  {
    if d > 0 {
      BelowIsUp(t, root, t[n].parent, d - 1);
      UpShift(LinksOf(t), n, d - 1);
    }
  }

  lemma NotBelowItself(t: Tree, id: string)
    requires Acyclic(LinksOf(t)) && id in t
    ensures !W.ProperlyBelow(t, id, id)
  {
    forall d: nat | 1 <= d ensures !W.Below(t, id, id, d) {
      if W.Below(t, id, id, d) { BelowIsUp(t, id, id, d); }
    }
  }

  /** A row below the bound is missed: in acyclic rows it has no second, shallower place. */
  lemma DeepIsMissed(t: Tree, id: string, x: string, k: nat)
    requires Acyclic(LinksOf(t)) && id in t && W.Below(t, id, x, k) && k > MAX_DEPTH
    ensures !InSubtree(t, true, id, x)
  {
    NotBelowItself(t, id);
    forall e: nat | e <= MAX_DEPTH ensures !W.Below(t, id, x, e) {
      if W.Below(t, id, x, e) { W.NoSecondDepth(t, id, x, e, k); }
    }
  }

  ghost predicate Closed(t: Tree, s: set<string>) {
    forall n :: n in t && t[n].parent in s ==> n in s
  }

  ghost predicate IsSubtree(t: Tree, sql: bool, id: string, s: set<string>) {
    forall n :: n in s <==> InSubtree(t, sql, id, n)
  }

  lemma {:induction false} ClosedHoldsBelow(t: Tree, s: set<string>, id: string, n: string, d: nat)
    requires Closed(t, s) && id in s && W.Below(t, id, n, d)
    ensures n in s
    decreases d
  {
    if d > 0 { ClosedHoldsBelow(t, s, id, t[n].parent, d - 1); }
  }

  /** The rows returned are closed under children exactly when nothing lies beyond the
      SQL walk's depth bound. */
  lemma SubtreeComplete(t: Tree, sql: bool, id: string, s: set<string>)
    requires Acyclic(LinksOf(t)) && id in t && IsSubtree(t, sql, id, s)
    ensures Closed(t, s) <==> WithinReach(t, sql, id)
  {
    assert W.Below(t, id, id, 0) && id in s;
    if !WithinReach(t, sql, id) {
      var x :| W.Below(t, id, x, MAX_DEPTH + 1);
      DeepIsMissed(t, id, x, MAX_DEPTH + 1);
      if Closed(t, s) { ClosedHoldsBelow(t, s, id, x, MAX_DEPTH + 1); }
    } else {
      forall n | n in t && t[n].parent in s ensures n in s {
        var d: nat :| W.Below(t, id, t[n].parent, d) && (sql ==> d <= MAX_DEPTH);
        assert W.Below(t, id, n, d + 1);
        assert sql ==> W.HasDepth(t, id, d + 1);
      }
    }
  }

  // ---- trash, restore, delete ----

  function Stamped(t: Tree, s: set<string>, trashed: bool): Tree {
    map n | n in t :: if n in s then t[n].(trashed := trashed) else t[n]
  }

  /** The rows in s are trashed or live as asked; parent, name, kind, blob and lock of every row,
      and every other row's state, are as they were. */
  ghost predicate OnlyStamped(t: Tree, t': Tree, s: set<string>, trashed: bool) {
    && t'.Keys == t.Keys
    && forall n :: n in t ==>
         && t'[n].parent == t[n].parent && t'[n].name == t[n].name && t'[n].kind == t[n].kind
         && t'[n].blob == t[n].blob && t'[n].locked == t[n].locked
         && (t'[n].trashed <==> if n in s then trashed else t[n].trashed)
  }

  /** The unique index, looked at for one written row. */
  predicate Clashes(t: Tree, id: string)
    requires id in t
  {
    && !t[id].trashed
    && exists m :: m in t && m != id && !t[m].trashed && t[m].parent == t[id].parent && t[m].name == t[id].name
  }

  lemma StampOne(t: Tree, s: set<string>, id: string, trashed: bool)
    requires id in t && UniqueLive(Stamped(t, s, trashed))
    ensures UniqueLive(Stamped(t, s + {id}, trashed)) <==> !Clashes(Stamped(t, s + {id}, trashed), id)
  {
    var u, u' := Stamped(t, s, trashed), Stamped(t, s + {id}, trashed);
    if Clashes(u', id) {
      var m :| m in u' && m != id && !u'[m].trashed && u'[m].parent == u'[id].parent && u'[m].name == u'[id].name;
      assert LiveChild(u', u'[id].parent, u'[id].name, m) && LiveChild(u', u'[id].parent, u'[id].name, id);
    } else {
      forall p, n, a, b | LiveChild(u', p, n, a) && LiveChild(u', p, n, b) ensures a == b {
        assert a != id ==> LiveChild(u, p, n, a);
        assert b != id ==> LiveChild(u, p, n, b);
      }
    }
  }

  /** A clash while part of a batch is applied is a clash of the whole batch. */
  lemma StampMore(t: Tree, s: set<string>, s': set<string>, trashed: bool)
    requires s <= s' && (trashed ==> UniqueLive(t)) && UniqueLive(Stamped(t, s', trashed))
    ensures UniqueLive(Stamped(t, s, trashed))
  {
    var u, u' := Stamped(t, s, trashed), Stamped(t, s', trashed);
    forall p, n, a, b | LiveChild(u, p, n, a) && LiveChild(u, p, n, b) ensures a == b {
      if trashed {
        assert LiveChild(t, p, n, a) && LiveChild(t, p, n, b);
      } else {
        assert LiveChild(u', p, n, a) && LiveChild(u', p, n, b);
      }
    }
  }

  /** The batch of updates: each row is written and looked up in the unique index, and
      the first clash abandons the batch. */
  method StampBatch(t: Tree, s: set<string>, trashed: bool) returns (r: Option<Tree>)
    requires UniqueLive(t) && s <= t.Keys
    ensures r.Some? <==> UniqueLive(Stamped(t, s, trashed))
    ensures r.Some? ==> r.value == Stamped(t, s, trashed)
  {
    var left, staged := s, t;
    while left != {}
      invariant left <= s && staged == Stamped(t, s - left, trashed) && UniqueLive(staged)
      decreases left
    {
      var n :| n in left;
      ghost var done := s - left;
      left := left - {n};
      assert s - left == done + {n};
      StampOne(t, done, n, trashed);
      staged := staged[n := t[n].(trashed := trashed)];
      assert staged == Stamped(t, s - left, trashed);
      if Clashes(staged, n) {
        if UniqueLive(Stamped(t, s, trashed)) { StampMore(t, s - left, s, trashed); }
        return None;
      }
    }
    assert s - left == s;
    return Some(staged);
  }

  lemma StampKeeps(t: Tree, used: set<string>, s: set<string>, trashed: bool)
    requires Sound(t) && Known(t, used) && UniqueLive(Stamped(t, s, trashed))
    ensures Sound(Stamped(t, s, trashed)) && Known(Stamped(t, s, trashed), used)
    ensures Anchored(t) ==> Anchored(Stamped(t, s, trashed))
  {
    assert LinksOf(Stamped(t, s, trashed)) == LinksOf(t);
  }

  lemma TrashIsUnique(t: Tree, s: set<string>)
    requires UniqueLive(t)
    ensures UniqueLive(Stamped(t, s, true))
  {
    var u := Stamped(t, s, true);
    forall p, n, a, b | LiveChild(u, p, n, a) && LiveChild(u, p, n, b) ensures a == b {
      assert LiveChild(t, p, n, a) && LiveChild(t, p, n, b);
    }
  }

  /** Trashing leaves nothing live in the subtree, except that on SQL a live row beyond
      the depth bound stays live. */
  lemma TrashedBelow(t: Tree, sql: bool, id: string, s: set<string>)
    requires Acyclic(LinksOf(t)) && id in t && IsSubtree(t, sql, id, s)
    ensures (forall n, d: nat :: W.Below(t, id, n, d) ==> n in t && Stamped(t, s, true)[n].trashed) <==>
            (sql ==> forall n, d: nat :: W.Below(t, id, n, d) && d > MAX_DEPTH ==> t[n].trashed)
  {
    if sql {
      forall n, d: nat | W.Below(t, id, n, d) && d > MAX_DEPTH ensures n in t && n !in s { DeepIsMissed(t, id, n, d); }
    }
  }

  /** Deleting rows keeps the forest sound; it leaves no orphan exactly when the rows are
      closed under children. */
  lemma DeleteKeeps(t: Tree, used: set<string>, s: set<string>)
    requires Sound(t) && Known(t, used)
    ensures Sound(t - s) && Known(t - s, used)
    ensures "" !in s && Anchored(t) ==> (Anchored(t - s) <==> Closed(t, s))
  {
    CutKeepsAcyclic(LinksOf(t), LinksOf(t - s));
    forall p, n, a, b | LiveChild(t - s, p, n, a) && LiveChild(t - s, p, n, b) ensures a == b {
      assert LiveChild(t, p, n, a) && LiveChild(t, p, n, b);
    }
    if "" !in s && Anchored(t) && Anchored(t - s) {
      forall n | n in t && t[n].parent in s ensures n in s {
        assert n !in s ==> IsFolder(t - s, (t - s)[n].parent);
      }
    }
  }

  // ---- a subtree one level too deep ----

  function Rung(k: nat): (r: string)
    ensures |r| == k
  {
    seq(k, _ => 'd')
  }

  function Level(k: nat): Node
    requires 1 <= k
  {
    Node(Rung(k - 1), "d", "folder", "", false, false)
  }

  /** n folders, each inside the one before. */
  function Tower(n: nat): Tree {
    map k | 1 <= k <= n :: Rung(k) := Level(k)
  }

  lemma {:induction false} TowerUp(n: nat, k: nat, j: nat)
    requires k <= n
    ensures Up(LinksOf(Tower(n)), Rung(k), j) == Rung(if j <= k then k - j else 0)
  {
    if j > 0 {
      TowerUp(n, k, j - 1);
      assert Rung(0) !in Tower(n);
    }
  }

  lemma {:induction false} TowerBelow(n: nat, k: nat, d: nat)
    requires 1 <= k && k + d <= n
    ensures W.Below(Tower(n), Rung(k), Rung(k + d), d)
  {
    if d > 0 {
      assert Rung(k + d) in Tower(n);
      TowerBelow(n, k, d - 1);
    }
  }

  lemma TowerSound(n: nat)
    ensures Sound(Tower(n)) && Anchored(Tower(n))
  {
    var t := Tower(n);
    forall x, j: nat | x in LinksOf(t) && 1 <= j ensures Up(LinksOf(t), x, j) != x { TowerUp(n, |x|, j); }
    forall p, m, a, b | LiveChild(t, p, m, a) && LiveChild(t, p, m, b) ensures a == b {
      assert a == Rung(|p| + 1) && b == Rung(|p| + 1);
    }
    assert Rung(0) == "";
  }

  /** On SQL, permanently deleting the top of 514 nested folders leaves an orphan. */
  lemma DeepDeleteOrphans(s: set<string>)
    requires IsSubtree(Tower(MAX_DEPTH + 2), true, Rung(1), s)
    ensures Sound(Tower(MAX_DEPTH + 2)) && Anchored(Tower(MAX_DEPTH + 2)) && !Anchored(Tower(MAX_DEPTH + 2) - s)
  {
    var n: nat := MAX_DEPTH + 2;
    TowerSound(n);
    TowerBelow(n, 1, n - 1);
    SubtreeComplete(Tower(n), true, Rung(1), s);
    DeleteKeeps(Tower(n), Tower(n).Keys, s);
  }

  // ---- the operations ----

  class FileTree {
    const sql: bool
    var rows: Tree
    var blobs: set<string>  // the stored blob objects
    ghost var used: set<string>

    ghost predicate Valid()
      reads this
    {
      Sound(rows) && Known(rows, used)
    }

    constructor (sql: bool)
      ensures Valid() && Anchored(rows) && rows == map[] && blobs == {} && this.sql == sql
    {
      this.sql := sql;
      rows, blobs := map[], {};
      used := {};
    }

    /** parentContext: the parent's path, or nothing when it is no folder or too deep. */
    method ParentPath(parent: string) returns (r: Option<string>)
      requires Valid()
      ensures r.Some? <==> IsFolder(rows, parent) && ChainWithin(rows, parent, MAX_DEPTH + 1)
      ensures r.Some? && parent != "" ==> r == PathOf(rows, parent)
      ensures r.Some? && parent == "" ==> r.value == ""
    {
      if parent == "" { return Some(""); }
      if parent !in rows || rows[parent].kind != "folder" { return None; }
      r := NodePath(rows, parent);
    }

    /** The checks of a create, and the parent's path. */
    method Admit(parent: string, name: string) returns (path: Option<string>)
      requires Valid()
      ensures path.Some? <==> CanCreate(rows, parent, name)
      ensures path.Some? ==> if parent == "" then path.value == "" else path == PathOf(rows, parent)
    {
      if !ValidName(name) { return None; }
      path := ParentPath(parent);
      if path.None? { return None; }
      var sibling := FindChild(rows, parent, name);
      if sibling.Some? { return None; }
    }

    method CreateFolder(id: string, parent: string, name: string) returns (echo: Option<string>)
      requires Valid() && id != "" && id !in used
      modifies this`rows, this`used
      ensures Valid()
      ensures echo.Some? <==> CanCreate(old(rows), parent, name)
      ensures rows == if echo.Some? then old(rows)[id := Node(parent, name, "folder", "", false, false)] else old(rows)
      ensures old(Anchored(rows)) ==> Anchored(rows)
      ensures echo.Some? ==> PathOf(rows, id) == if ChainWithin(old(rows), parent, MAX_DEPTH) then echo else None
    {
      var path := Admit(parent, name);
      if path.None? { return None; }
      Insert(id, Node(parent, name, "folder", "", false, false));
      return Some(ChildPath(path.value, name));
    }

    /** `put` is what storing the bytes returns: a blob id, or nothing; `commits` says whether
        the create command then goes through. The bytes are stored only once the checks have
        passed, and stay without a node if the command fails. */
    method CreateFile(id: string, parent: string, name: string, put: Option<string>, commits: bool)
      returns (echo: Option<string>)
      requires Valid() && id != "" && id !in used
      modifies this`rows, this`used, this`blobs
      ensures Valid()
      ensures echo.Some? <==> CanCreate(old(rows), parent, name) && put.Some? && commits
      ensures rows == if echo.Some? then old(rows)[id := Node(parent, name, "file", put.value, false, false)] else old(rows)
      ensures blobs == if CanCreate(old(rows), parent, name) && put.Some? then old(blobs) + {put.value} else old(blobs)
      ensures old(Anchored(rows)) ==> Anchored(rows)
      ensures echo.Some? ==> PathOf(rows, id) == if ChainWithin(old(rows), parent, MAX_DEPTH) then echo else None
    {
      var path := Admit(parent, name);
      if path.None? || put.None? { return None; }
      blobs := blobs + {put.value};
      if !commits { return None; }
      Insert(id, Node(parent, name, "file", put.value, false, false));
      return Some(ChildPath(path.value, name));
    }

    /** The create command itself. */
    method Insert(id: string, node: Node)
      requires Valid() && id != "" && id !in used && CanCreate(rows, node.parent, node.name)
      modifies this`rows, this`used
      ensures Valid() && rows == old(rows)[id := node]
      ensures old(Anchored(rows)) ==> Anchored(rows)
      ensures node.parent != "" ==> old(PathOf(rows, node.parent)).Some?
      ensures
        var path := if node.parent == "" then "" else old(PathOf(rows, node.parent)).value;
        PathOf(rows, id) ==
        if ChainWithin(old(rows), node.parent, MAX_DEPTH) then Some(ChildPath(path, node.name)) else None
    {
      CreateKeeps(rows, used, id, node);
      CreateEcho(rows, used, id, node);
      rows, used := rows[id := node], used + {id};
    }

    method Rename(id: string, name: string) returns (echo: Option<string>)
      requires Valid()
      modifies this`rows
      ensures Valid()
      ensures echo.Some? <==> CanRename(old(rows), id, name)
      ensures rows == if echo.Some? then old(rows)[id := old(rows)[id].(name := name)] else old(rows)
      ensures old(Anchored(rows)) ==> Anchored(rows)
      ensures echo.Some? ==> PathOf(rows, id) == echo
    {
      if !ValidName(name) || id !in rows || rows[id].locked { return None; }
      var sibling := FindChild(rows, rows[id].parent, name);
      if sibling.Some? { return None; }
      var oldPath := NodePath(rows, id);
      if oldPath.None? { return None; }
      RenameKeeps(rows, used, id, name);
      ghost var c :| IsChain(rows, id, c) && |c| <= MAX_DEPTH + 1;
      RenameEcho(rows, id, name, c);
      rows := rows[id := rows[id].(name := name)];
      return Some(ChildPath(DirOf(oldPath.value), name));
    }

    /** The walk before the transaction: the new parent's path, unless `id` is on the way. */
    method NewParentPath(id: string, p: string) returns (r: Option<string>)
      requires Valid() && p != id
      ensures r.Some? <==> IsFolder(rows, p) && (p == "" || ClearChain(rows, id, p, MAX_DEPTH + 1))
      ensures r.Some? ==> if p == "" then r.value == "" else r == PathOf(rows, p)
    {
      if p == "" { return Some(""); }
      if p !in rows || rows[p].kind != "folder" { return None; }
      var chain := ChainToRoot(rows, p);
      if chain.None? { return None; }
      forall c | IsChain(rows, p, c) ensures c == chain.value { ChainUnique(rows, p, c, chain.value); }
      if id in chain.value { return None; }
      var path := PathFromChain(rows, chain.value);
      PathOfChain(rows, p, chain.value);
      return Some(path);
    }

    /** The check inside the transaction, on the staged row; moves to the root skip it. */
    method Guard(id: string, p: string) returns (pass: bool)
      requires Valid() && id in rows && (p == "" || ClearChain(rows, id, p, MAX_DEPTH + 1))
      ensures pass <==> p == "" || ClearChain(rows, id, p, MoveBound(sql))
    {
      if p == "" { return true; }
      ghost var c :| IsChain(rows, p, c) && |c| <= MAX_DEPTH + 1 && id !in c;
      forall c' | IsChain(rows, p, c') ensures c' == c { ChainUnique(rows, p, c', c); }
      var staged := LinksOf(rows[id := rows[id].(parent := p)]);
      var v;
      if sql { v := FsMove.SqlCycleCheck(staged, id, p); } else { v := FsMove.PortableCycleWalk(staged, id, p); }
      GuardVerdict(rows, id, p, c, MoveBound(sql));
      return v.Pass?;
    }

    method Move(id: string, p: string) returns (echo: Option<string>)
      requires Valid()
      modifies this`rows
      ensures Valid()
      ensures echo.Some? <==> CanMove(old(rows), sql, id, p)
      ensures rows == if echo.Some? then old(rows)[id := old(rows)[id].(parent := p)] else old(rows)
      ensures old(Anchored(rows)) ==> Anchored(rows)
      ensures echo.Some? ==> PathOf(rows, id) == if ChainWithin(old(rows), p, MAX_DEPTH) then echo else None
    {
      if id !in rows || rows[id].locked || !ValidName(rows[id].name) { return None; }
      if p == id {
        OwnParentIsNotClear(rows, id);
        return None;
      }
      var parentPath := NewParentPath(id, p);
      if parentPath.None? { return None; }
      var sibling := FindChild(rows, p, rows[id].name);
      if sibling.Some? { return None; }
      var pass := Guard(id, p);
      if !pass { return None; }
      MoveKeeps(rows, used, sql, id, p);
      MoveEcho(rows, sql, id, p);
      rows := rows[id := rows[id].(parent := p)];
      return Some(ChildPath(parentPath.value, rows[id].name));
    }

    /** The node and its descendants in path order: each once, ancestors first. */
    method Subtree(id: string) returns (r: Option<seq<string>>)
      requires Valid() && id in rows
      ensures r.None? <==> !sql && W.TooDeep(rows, id)
      ensures r.Some? ==> IsSubtree(rows, sql, id, set n | n in r.value)
      ensures r.Some? ==> r.value != [] && r.value[0] == id && InOrder(rows, id, r.value)
    {
      NotBelowItself(rows, id);
      var desc: seq<string>;
      if sql {
        desc := W.CteDescendants(rows, id, true);
      } else {
        var d := W.Descendants(rows, id, true);
        if d.None? { return None; }
        desc := d.value;
      }
      SubtreeSeq(rows, sql, id, desc);
      return Some([id] + desc);
    }

    /** TrashNode and RestoreNode: one update per row, all or nothing, under the unique index. */
    method SetDeleted(id: string, trashed: bool) returns (ok: bool, ghost s: set<string>)
      requires Valid()
      modifies this`rows
      ensures Valid()
      ensures id in old(rows) ==> IsSubtree(old(rows), sql, id, s)
      ensures ok <==> && id in old(rows) && (sql || !W.TooDeep(old(rows), id))
                      && (trashed || UniqueLive(Stamped(old(rows), s, false)))
      ensures rows == if ok then Stamped(old(rows), s, trashed) else old(rows)
      ensures ok ==> OnlyStamped(old(rows), rows, s, trashed)
      ensures old(Anchored(rows)) ==> Anchored(rows)
    {
      s := set n | n in rows && InSubtree(rows, sql, id, n);
      if id !in rows { return false, s; }
      SubtreeIsFinite(rows, sql, id);
      var nodes := Subtree(id);
      if nodes.None? { return false, s; }
      var all := set n | n in nodes.value;
      assert s == all;
      if trashed { TrashIsUnique(rows, s); }
      var staged := StampBatch(rows, all, trashed);
      if staged.None? { return false, s; }
      StampKeeps(rows, used, s, trashed);
      rows := staged.value;
      return true, s;
    }

    /** Deletes the subtree's rows in one batch, then its files' blobs one by one in path order;
        the first blob that cannot be deleted ends it with an error, the rows being gone already.
        `found` is the files' blob ids, None when nothing was deleted. */
    method PermanentDelete(id: string, deletable: string -> bool)
      returns (found: Option<seq<string>>, ok: bool, ghost nodes: seq<string>)
      requires Valid()
      modifies this`rows, this`blobs
      ensures Valid()
      ensures found.Some? <==> id in old(rows) && (sql || !W.TooDeep(old(rows), id))
      ensures found.None? ==> rows == old(rows) && blobs == old(blobs) && !ok
      ensures found.Some? ==> IsSubtree(old(rows), sql, id, set n | n in nodes) && InOrder(old(rows), id, nodes)
      ensures found.Some? ==> rows == old(rows) - set n | n in nodes
      ensures found.Some? && old(Anchored(rows)) ==> (Anchored(rows) <==> WithinReach(old(rows), sql, id))
      ensures found.Some? ==> found.value == BlobsOf(old(rows), nodes)
      ensures found.Some? ==> blobs == Unblobbed(old(blobs), found.value, deletable)
      ensures found.Some? ==> (ok <==> forall b :: b in found.value ==> deletable(b))
    {
      nodes := [];
      if id !in rows { return None, false, []; }
      var sub := Subtree(id);
      if sub.None? { return None, false, []; }
      SubtreeIsFinite(rows, sql, id);
      var all := set n | n in sub.value;
      var ids := BlobsOf(rows, sub.value);
      SubtreeComplete(rows, sql, id, all);
      DeleteKeeps(rows, used, all);
      rows := rows - all;
      ok := DeleteBlobs(ids, deletable);
      return Some(ids), ok, sub.value;
    }

    method DeleteBlobs(ids: seq<string>, deletable: string -> bool) returns (ok: bool)
      modifies this`blobs
      ensures ok <==> forall b :: b in ids ==> deletable(b)
      ensures blobs == Unblobbed(old(blobs), ids, deletable)
    {
      for i := 0 to |ids|
        invariant forall b :: b in ids[..i] ==> deletable(b)
        invariant Unblobbed(old(blobs), ids, deletable) == Unblobbed(blobs, ids[i..], deletable)
      {
        if !deletable(ids[i]) { return false; }
        blobs := blobs - {ids[i]};
        assert ids[i..][1..] == ids[i + 1..];
      }
      return true;
    }
  }

  /** The blob ids of the files among `nodes`, in their order. */
  function BlobsOf(t: Tree, nodes: seq<string>): (r: seq<string>)
    ensures forall b :: b in r <==> exists n :: n in nodes && n in t && HoldsBlob(t, n, b)
  {
    if nodes == [] then []
    else
      var pre, n := BlobsOf(t, nodes[..|nodes| - 1]), nodes[|nodes| - 1];
      assert forall m :: m in nodes <==> m in nodes[..|nodes| - 1] || m == n;
      if n in t && t[n].kind == "file" && t[n].blob != "" then pre + [t[n].blob] else pre
  }

  /** What is left of `blobs` when the ids are deleted one by one up to the first that cannot be. */
  function Unblobbed(blobs: set<string>, ids: seq<string>, deletable: string -> bool): (r: set<string>)
    ensures (forall b :: b in ids ==> deletable(b)) ==> r == blobs - set b | b in ids
    ensures forall b :: b in blobs && (b !in ids || !deletable(b)) ==> b in r
  {
    if ids == [] || !deletable(ids[0]) then blobs else Unblobbed(blobs - {ids[0]}, ids[1..], deletable)
  }

  /** Path order: each once, ancestors first, the relative paths ascending. */
  ghost predicate InOrder(t: Tree, id: string, nodes: seq<string>) {
    W.AncestorsFirst(t, nodes) && W.ByPath(t, id, nodes)
  }

  ghost predicate HoldsBlob(t: Tree, n: string, b: string)
    requires n in t
  {
    t[n].kind == "file" && t[n].blob == b != ""
  }

  ghost predicate CanRename(t: Tree, id: string, name: string) {
    && ValidName(name)
    && id in t && !t[id].locked
    && NoLive(t, t[id].parent, name)
    && PathOf(t, id).Some?
  }

  lemma OwnParentIsNotClear(t: Tree, id: string)
    ensures forall bound: nat :: !ClearChain(t, id, id, bound)
  {
    forall c | IsChain(t, id, c) ensures id in c { assert c[0] == Up(LinksOf(t), id, 0); }
  }

  /** Rows below a row are rows. */
  lemma SubtreeIsFinite(t: Tree, sql: bool, id: string)
    requires id in t
    ensures forall n :: InSubtree(t, sql, id, n) ==> n in t
  {
  }

  lemma SubtreeSeq(t: Tree, sql: bool, id: string, desc: seq<string>)
    requires id in t && !W.ProperlyBelow(t, id, id) && InOrder(t, id, desc)
    requires forall n :: n in desc <==>
               n in t && n != id && if sql then W.BelowWithin(t, id, n, MAX_DEPTH) else W.ProperlyBelow(t, id, n)
    ensures IsSubtree(t, sql, id, set n | n in [id] + desc) && InOrder(t, id, [id] + desc)
  {
    assert W.Below(t, id, id, 0);
    var all := [id] + desc;
    assert forall n :: n in all <==> n == id || n in desc;
    FirstByPath(t, id, desc);
    forall i, j | 0 <= i < j < |all| ensures all[i] != all[j] {
      if i == 0 { assert all[j] in desc; }
    }
    forall i, j | 0 <= i < |all| && 0 <= j < |all| && W.ProperlyBelow(t, all[i], all[j]) ensures i < j {
      if j == 0 && i > 0 {
        assert all[i] in desc;
        AboveAndBelow(t, id, all[i]);
      }
    }
  }

  /** The root's own relative path is empty, so it comes first. */
  lemma FirstByPath(t: Tree, id: string, desc: seq<string>)
    requires id in t && !W.ProperlyBelow(t, id, id) && W.ByPath(t, id, desc)
    ensures W.ByPath(t, id, [id] + desc)
  {
    var all := [id] + desc;
    forall i, j, d: nat, e: nat | 0 <= i < j < |all| && W.Below(t, id, all[i], d) && W.Below(t, id, all[j], e)
      ensures !Less(W.RelPath(t, all[j], e), W.RelPath(t, all[i], d))
    {
      if i == 0 {
        assert d == 0;
      } else {
        assert all[i] == desc[i - 1] && all[j] == desc[j - 1];
      }
    }
  }

  lemma AboveAndBelow(t: Tree, id: string, n: string)
    ensures W.ProperlyBelow(t, id, n) && W.ProperlyBelow(t, n, id) ==> W.ProperlyBelow(t, id, id)
  {
    if W.ProperlyBelow(t, id, n) && W.ProperlyBelow(t, n, id) {
      var d: nat :| 1 <= d && W.Below(t, id, n, d);
      var e: nat :| 1 <= e && W.Below(t, n, id, e);
      W.BelowTrans(t, id, n, id, d, e);
    }
  }

  lemma MoveEcho(t: Tree, sql: bool, id: string, p: string)
    requires Sound(t) && CanMove(t, sql, id, p)
    ensures p != "" ==> PathOf(t, p).Some?
    ensures
      var path := if p == "" then "" else PathOf(t, p).value;
      PathOf(t[id := t[id].(parent := p)], id) ==
      if ChainWithin(t, p, MAX_DEPTH) then Some(ChildPath(path, t[id].name)) else None
  {
    var node := t[id].(parent := p);
    if p == "" {
      EchoAtRoot(t, id, node);
    } else {
      var c :| IsChain(t, p, c) && |c| <= MoveBound(sql) && id !in c;
      EchoBelow(t, id, node, c);
      forall c' | IsChain(t, p, c') ensures c' == c { ChainUnique(t, p, c, c'); }
    }
  }

  lemma CreateEcho(t: Tree, used: set<string>, id: string, node: Node)
    requires Sound(t) && Known(t, used) && id != "" && id !in used && ChainWithin(t, node.parent, MAX_DEPTH + 1)
    ensures node.parent != "" ==> PathOf(t, node.parent).Some?
    ensures
      var path := if node.parent == "" then "" else PathOf(t, node.parent).value;
      PathOf(t[id := node], id) ==
      if ChainWithin(t, node.parent, MAX_DEPTH) then Some(ChildPath(path, node.name)) else None
  {
    if node.parent == "" {
      EchoAtRoot(t, id, node);
    } else {
      var c :| IsChain(t, node.parent, c) && |c| <= MAX_DEPTH + 1;
      EchoBelow(t, id, node, c);
      forall c' | IsChain(t, node.parent, c') ensures c' == c { ChainUnique(t, node.parent, c, c'); }
    }
  }
}
