/** Parent links between file-tree nodes. `parent_id` is the only stored truth; ""
    stands for the root and a link to an id without a row ends the walk. */
module FsForest {

  /** The bound of every walk over parent links (fsMaxDepth). */
  const MAX_DEPTH := 512

  type Links = map<string, string>

  /** The id one walk step reaches from `x`. */
  function Parent(l: Links, x: string): string {
    if x in l then l[x] else ""
  }

  /** The n-th ancestor of `x`, x itself for n = 0. */
  function Up(l: Links, x: string, n: nat): string {
    if n == 0 then x else Parent(l, Up(l, x, n - 1))
  }

  ghost predicate Rooted(l: Links) {
    "" !in l
  }

  ghost predicate Reaches(l: Links, x: string, y: string) {
    exists n: nat :: Up(l, x, n) == y
  }

  /** No node is its own ancestor. */
  ghost predicate Acyclic(l: Links) {
    forall x, n: nat :: x in l && 1 <= n ==> Up(l, x, n) != x
  }

  // ---- walking ----

  lemma {:induction false} UpAdd(l: Links, x: string, a: nat, b: nat)
    ensures Up(l, Up(l, x, a), b) == Up(l, x, a + b)
  {
    if b > 0 { UpAdd(l, x, a, b - 1); }
  }

  /** The first step can be taken off the front of a walk. */
  lemma UpShift(l: Links, x: string, k: nat)
    ensures Up(l, x, k + 1) == Up(l, Parent(l, x), k)
  {
    assert Up(l, x, 1) == Parent(l, x) by { assert Up(l, x, 0) == x; }
    UpAdd(l, x, 1, k);
  }

  lemma {:induction false} UpFromRoot(l: Links, n: nat)
    requires Rooted(l)
    ensures Up(l, "", n) == ""
  {
    if n > 0 { UpFromRoot(l, n - 1); }
  }

  /** Once a walk has left the rows it never comes back. */
  lemma UpEnds(l: Links, x: string, a: nat, b: nat)
    requires Rooted(l) && a <= b && Up(l, x, a) == ""
    ensures Up(l, x, b) == ""
  {
    UpAdd(l, x, a, b - a);
    UpFromRoot(l, b - a);
  }

  /** Changing the link of `m` does not matter to a walk before it meets m. */
  lemma {:induction false} UpBeforeChange(l: Links, l': Links, m: string, x: string, n: nat)
    requires forall y :: y != m ==> Parent(l, y) == Parent(l', y)
    requires forall j: nat :: j < n ==> Up(l, x, j) != m
    ensures Up(l', x, n) == Up(l, x, n)
  {
    if n > 0 { UpBeforeChange(l, l', m, x, n - 1); }
  }

  /** The first time a walk meets `m`. */
  lemma {:induction false} FirstMeeting(l: Links, x: string, m: string, n: nat) returns (k: nat)
    requires Up(l, x, n) == m
    ensures k <= n && Up(l, x, k) == m && forall j: nat :: j < k ==> Up(l, x, j) != m
  {
    k := 0;
    while Up(l, x, k) != m
      invariant k <= n && forall j: nat :: j < k ==> Up(l, x, j) != m
      decreases n - k
    {
      k := k + 1;
    }
  }

  /** A change of m's link neither hides m from a walk nor lets a new walk meet it first. */
  lemma ReachesUnaffectedByOwnLink(l: Links, l': Links, m: string, x: string)
    requires forall y :: y != m ==> Parent(l, y) == Parent(l', y)
    ensures Reaches(l, x, m) <==> Reaches(l', x, m)
  {
    if Reaches(l, x, m) {
      var n: nat :| Up(l, x, n) == m;
      var k := FirstMeeting(l, x, m, n);
      UpBeforeChange(l, l', m, x, k);
    }
    if Reaches(l', x, m) {
      var n: nat :| Up(l', x, n) == m;
      var k := FirstMeeting(l', x, m, n);
      UpBeforeChange(l', l, m, x, k);
    }
  }

  // ---- changes that keep the links acyclic ----

  function Relink(l: Links, m: string, p: string): Links {
    if m in l then l[m := p] else l
  }

  /** Turning round a cycle: starting anywhere on it comes back after as many steps. */
  lemma Rotate(l: Links, x: string, n: nat, j: nat)
    requires Up(l, x, n) == x
    ensures Up(l, Up(l, x, j), n) == Up(l, x, j)
  {
    UpAdd(l, x, j, n);
    UpAdd(l, x, n, j);
  }

  /** Moving `m` under `p` closes a cycle only if p's ancestors already contain m. */
  lemma RelinkKeepsAcyclic(l: Links, m: string, p: string)
    requires Rooted(l) && Acyclic(l) && !Reaches(l, p, m)
    ensures Acyclic(Relink(l, m, p)) && Rooted(Relink(l, m, p))
  {
    var l' := Relink(l, m, p);
    forall x, n: nat | x in l' && 1 <= n ensures Up(l', x, n) != x {
      if Up(l', x, n) == x {
        if j: nat :| j < n && Up(l', x, j) == m {
          Rotate(l', x, n, j);
          UpAdd(l', m, 1, n - 1);
          assert m in l;
          assert Up(l', m, 1) == p by { assert Up(l', m, 0) == m; }
          ReachesUnaffectedByOwnLink(l, l', m, p);
          assert Reaches(l', p, m);
        } else {
          UpBeforeChange(l', l, m, x, n);
        }
        assert false;
      }
    }
  }

  /** Every step of `l'` is the step of `l` or ends the walk. */
  ghost predicate Cut(l: Links, l': Links) {
    forall y :: Parent(l', y) == Parent(l, y) || Parent(l', y) == ""
  }

  lemma {:induction false} CutUp(l: Links, l': Links, x: string, n: nat)
    requires Cut(l, l') && Rooted(l')
    ensures Up(l', x, n) == Up(l, x, n) || Up(l', x, n) == ""
  {
    if n > 0 { CutUp(l, l', x, n - 1); }
  }

  /** Removing links - moving to the root, deleting rows - creates no ancestry. */
  lemma CutKeepsAcyclic(l: Links, l': Links)
    requires Cut(l, l') && Rooted(l) && Acyclic(l) && l'.Keys <= l.Keys
    ensures Acyclic(l')
    ensures forall x, y :: y != "" && Reaches(l', x, y) ==> Reaches(l, x, y)
  {
    forall x, n: nat | x in l' && 1 <= n ensures Up(l', x, n) != x {
      CutUp(l, l', x, n);
    }
    forall x, y | y != "" && Reaches(l', x, y) ensures Reaches(l, x, y) {
      var n: nat :| Up(l', x, n) == y;
      CutUp(l, l', x, n);
    }
  }

  /** Nothing refers to `id`. */
  ghost predicate Fresh(l: Links, id: string) {
    id != "" && id !in l && forall x :: x in l ==> l[x] != id
  }

  lemma {:induction false} LeafUp(l: Links, id: string, p: string, x: string, n: nat)
    requires Fresh(l, id) && x != id
    ensures Up(l[id := p], x, n) == Up(l, x, n) != id
  {
    if n > 0 { LeafUp(l, id, p, x, n - 1); }
  }

  /** A new node below any existing parent is a leaf: it changes no ancestry. */
  lemma LeafKeepsAcyclic(l: Links, id: string, p: string)
    requires Rooted(l) && Acyclic(l) && Fresh(l, id) && p != id
    ensures Acyclic(l[id := p]) && Rooted(l[id := p])
    ensures forall x, y :: x != id ==> (Reaches(l[id := p], x, y) <==> Reaches(l, x, y))
  {
    var l' := l[id := p];
    forall x, n: nat | x in l' && 1 <= n ensures Up(l', x, n) != x {
      if x == id {
        UpAdd(l', id, 1, n - 1);
        assert Up(l', id, 1) == p by { assert Up(l', id, 0) == id; }
        LeafUp(l, id, p, p, n - 1);
      } else {
        LeafUp(l, id, p, x, n);
      }
    }
    forall x, y | x != id ensures Reaches(l', x, y) <==> Reaches(l, x, y) {
      forall n: nat ensures Up(l', x, n) == Up(l, x, n) { LeafUp(l, id, p, x, n); }
    }
  }
}
