/** Concurrent moves. Each move is checked before its transaction (possibly on stale
    data) and again inside it, under a per-tenant lock; moves to the root, creates and
    deletes take no lock. */
module FsMove {
  import opened FsForest

  // ---- the in-transaction cycle check ----

  datatype Verdict = Pass | Cycle | TooDeep

  /** The walk from `p` meets `m` at the latest after `bound` steps. */
  ghost predicate Meets(l: Links, p: string, m: string, bound: nat) {
    exists n: nat :: n <= bound && Up(l, p, n) == m
  }

  /** What a check that looks at `bound` + 1 ids decides. */
  ghost function Decide(l: Links, m: string, p: string, bound: nat): Verdict {
    if Meets(l, p, m, bound) then Cycle else if Up(l, p, bound) != "" then TooDeep else Pass
  }

  /** The PL/pgSQL loop: compare, count, give up beyond 512 hops, fetch the parent (a
      missing row yields NULL, which ends the loop like ''). */
  method SqlCycleCheck(l: Links, m: string, p: string) returns (v: Verdict)
    requires Rooted(l) && m != ""
    ensures v == Decide(l, m, p, MAX_DEPTH)
  {
    var cur, hops := p, 0;
    while cur != ""
      invariant 0 <= hops <= MAX_DEPTH
      invariant cur == Up(l, p, hops)
      invariant forall n: nat :: n < hops ==> Up(l, p, n) != m
      decreases MAX_DEPTH + 1 - hops
    {
      if cur == m { return Cycle; }
      hops := hops + 1;
      if hops > MAX_DEPTH {
        return TooDeep;
      }
      cur := Parent(l, cur);
    }
    WalkEnded(l, m, p, hops, MAX_DEPTH);
    return Pass;
  }

  /** The portable walk of stores without raw SQL: compare, then give up beyond 512
      hops, then read the row; a missing row passes. */
  method PortableCycleWalk(l: Links, m: string, p: string) returns (v: Verdict)
    requires Rooted(l) && m != ""
    ensures v == Decide(l, m, p, MAX_DEPTH + 1)
  {
    var cur, hops := p, 0;
    while cur != ""
      invariant 0 <= hops <= MAX_DEPTH + 1
      invariant cur == Up(l, p, hops)
      invariant forall n: nat :: n < hops ==> Up(l, p, n) != m
      decreases MAX_DEPTH + 2 - hops
    {
      if cur == m { return Cycle; }
      if hops > MAX_DEPTH { return TooDeep; }
      if cur !in l {
        assert Up(l, p, hops + 1) == "";
        WalkEnded(l, m, p, hops + 1, MAX_DEPTH + 1);
        return Pass;
      }
      cur := l[cur];
      hops := hops + 1;
    }
    WalkEnded(l, m, p, hops, MAX_DEPTH + 1);
    return Pass;
  }

  lemma WalkEnded(l: Links, m: string, p: string, k: nat, bound: nat)
    requires Rooted(l) && m != "" && k <= bound && Up(l, p, k) == ""
    requires forall n: nat :: n < k ==> Up(l, p, n) != m
    ensures Decide(l, m, p, bound) == Pass
  {
    forall n: nat | k <= n ensures Up(l, p, n) == "" { UpEnds(l, p, k, n); }
  }

  /** The two checks agree on every ancestor chain of at most 512 nodes, and beyond that
      they differ exactly when the chain has 513 nodes clear of m, or its 514th node is m. */
  lemma ChecksAgree(l: Links, m: string, p: string)
    requires Rooted(l) && m != ""
    ensures Up(l, p, MAX_DEPTH) == "" ==> Decide(l, m, p, MAX_DEPTH) == Decide(l, m, p, MAX_DEPTH + 1)
    ensures Decide(l, m, p, MAX_DEPTH) != Decide(l, m, p, MAX_DEPTH + 1) <==>
              && !Meets(l, p, m, MAX_DEPTH)
              && Up(l, p, MAX_DEPTH) != ""
              && (Up(l, p, MAX_DEPTH + 1) == "" || Up(l, p, MAX_DEPTH + 1) == m)
  {
    if Up(l, p, MAX_DEPTH) == "" { UpEnds(l, p, MAX_DEPTH, MAX_DEPTH + 1); }
    assert Meets(l, p, m, MAX_DEPTH + 1) <==> Meets(l, p, m, MAX_DEPTH) || Up(l, p, MAX_DEPTH + 1) == m;
  }

  /** A passing check, run on the state with the move already staged, means the new
      parent does not lie below the moved node in the committed state. */
  lemma PassMeansNoCycle(l: Links, m: string, p: string, bound: nat)
    requires Rooted(l) && m != "" && Decide(Relink(l, m, p), m, p, bound) == Pass
    ensures !Reaches(l, p, m)
  {
    var l' := Relink(l, m, p);
    if Reaches(l, p, m) {
      ReachesUnaffectedByOwnLink(l, l', m, p);
      var n: nat :| Up(l', p, n) == m;
      UpEnds(l', p, bound, if n < bound then bound else n);
      assert false;
    }
  }

  // ---- the protocol ----

  /** One MoveNode call. `Staged` is reached with any pair at all: whatever the walk
      before the transaction read, it may be stale by now. */
  datatype Phase =
    | Idle
    | Staged(m: string, p: string)
    | Walking(m: string, p: string, cur: string, hops: nat)  // holds the lock, `hops` reads done
    | Passed(m: string, p: string)

  /** `used` holds every id ever handed out; ids are never reused. */
  datatype Sys = Sys(links: Links, used: set<string>, lock: set<nat>, movers: map<nat, Phase>)

  datatype Label =
    | Begin(i: nat, m: string, p: string)  // row updated in the transaction
    | TakeLock(i: nat)                     // pg_advisory_xact_lock
    | Hop(i: nat)                          // one turn of the DO block's loop: one read
    | Commit(i: nat)                       // guarded move commits, lock released
    | CommitToRoot(i: nat)                 // unguarded move commits
    | Abort(i: nat)
    | Create(id: string, p: string)
    | Delete(gone: set<string>)

  function At(s: Sys, i: nat): Phase {
    if i in s.movers then s.movers[i] else Idle
  }

  ghost predicate Enabled(s: Sys, a: Label) {
    match a
    case Begin(i, m, p) => At(s, i).Idle? && m in s.links && (p == "" || p in s.used)
    case TakeLock(i) => At(s, i).Staged? && At(s, i).p != "" && s.lock == {}
    case Hop(i) => At(s, i).Walking?
    case Commit(i) => At(s, i).Passed?
    case CommitToRoot(i) => At(s, i).Staged? && At(s, i).p == ""
    case Abort(i) => !At(s, i).Idle?
    case Create(id, p) => id != "" && id !in s.used && (p == "" || p in s.used)
    case Delete(_) => true
  }

  function Release(s: Sys, i: nat): Sys {
    s.(movers := s.movers[i := Idle], lock := s.lock - {i})
  }

  ghost function Next(s: Sys, a: Label): Sys
    requires Enabled(s, a)
  {
    match a
    case Begin(i, m, p) => s.(movers := s.movers[i := Staged(m, p)])
    case TakeLock(i) => s.(movers := s.movers[i := Walking(At(s, i).m, At(s, i).p, At(s, i).p, 0)], lock := {i})
    case Hop(i) =>
      var w := At(s, i);
      if w.cur == "" then s.(movers := s.movers[i := Passed(w.m, w.p)])
      else if w.cur == w.m || w.hops + 1 > MAX_DEPTH then Release(s, i)
      else s.(movers := s.movers[i := w.(cur := Parent(s.links, w.cur), hops := w.hops + 1)])
    case Commit(i) => Release(s.(links := Relink(s.links, At(s, i).m, At(s, i).p)), i)
    case CommitToRoot(i) => Release(s.(links := Relink(s.links, At(s, i).m, "")), i)
    case Abort(i) => Release(s, i)
    case Create(id, p) => s.(links := s.links[id := p], used := s.used + {id})
    case Delete(gone) => s.(links := s.links - gone)
  }

  /** Ids are nonempty and everything mentioned has been handed out. */
  ghost predicate Known(s: Sys) {
    && "" !in s.used
    && s.links.Keys <= s.used
    && (forall x :: x in s.links ==> s.links[x] == "" || s.links[x] in s.used)
    && (forall i: nat :: !At(s, i).Idle? ==> At(s, i).m in s.used && (At(s, i).p == "" || At(s, i).p in s.used))
  }

  /** The lock excludes: a mover past the lock is its only holder. */
  ghost predicate Exclusive(s: Sys) {
    forall i: nat :: At(s, i).Walking? || At(s, i).Passed? ==> s.lock == {i}
  }

  /** A passed check is still true, whatever has committed since. */
  ghost predicate ChecksStand(s: Sys) {
    forall i: nat :: At(s, i).Passed? ==> !Reaches(s.links, At(s, i).p, At(s, i).m)
  }

  /** A walk in progress has missed nothing: if the parent's chain, as it is now, meets m at
      all, it does so from where the walk stands. */
  ghost predicate OnTrack(l: Links, m: string, p: string, cur: string, hops: nat) {
    Reaches(l, p, m) ==> Up(l, p, hops) == cur && forall j: nat :: j < hops ==> Up(l, p, j) != m
  }

  ghost predicate WalksOnTrack(s: Sys) {
    forall i: nat :: At(s, i).Walking? ==> OnTrack(s.links, At(s, i).m, At(s, i).p, At(s, i).cur, At(s, i).hops)
  }

  ghost predicate Inv(s: Sys) {
    Known(s) && Exclusive(s) && ChecksStand(s) && WalksOnTrack(s) && Acyclic(s.links)
  }

  /** The staged row is m's own, so a hop from any other node reads a committed link. */
  lemma TrackHop(l: Links, m: string, p: string, cur: string, hops: nat)
    requires OnTrack(l, m, p, cur, hops) && cur != m
    ensures OnTrack(l, m, p, Parent(l, cur), hops + 1)
  {
  }

  lemma TrackEnds(l: Links, m: string, p: string, hops: nat)
    requires Rooted(l) && m != "" && OnTrack(l, m, p, "", hops)
    ensures !Reaches(l, p, m)
  {
    if Reaches(l, p, m) {
      var n: nat :| Up(l, p, n) == m;
      UpEnds(l, p, hops, if n < hops then hops else n);
    }
  }

  /** Links that are cut between two hops - moves to the root, deletes - shorten chains only. */
  lemma TrackCut(l: Links, l': Links, m: string, p: string, cur: string, hops: nat)
    requires Cut(l, l') && Rooted(l') && m != "" && OnTrack(l, m, p, cur, hops)
    ensures OnTrack(l', m, p, cur, hops)
  {
    if Reaches(l', p, m) {
      var n: nat :| Up(l', p, n) == m;
      forall k: nat | k <= n ensures Up(l', p, k) == Up(l, p, k) {
        CutUp(l, l', p, k);
        if Up(l', p, k) == "" { UpEnds(l', p, k, n); }
      }
      assert Reaches(l, p, m);
    }
  }

  lemma TrackLeaf(l: Links, id: string, q: string, m: string, p: string, cur: string, hops: nat)
    requires Fresh(l, id) && p != id && OnTrack(l, m, p, cur, hops)
    ensures OnTrack(l[id := q], m, p, cur, hops)
  {
    var l' := l[id := q];
    forall k: nat ensures Up(l', p, k) == Up(l, p, k) { LeafUp(l, id, q, p, k); }
    if Reaches(l', p, m) {
      var n: nat :| Up(l', p, n) == m;
      assert Up(l, p, n) == m;
    }
  }

  lemma CutTracks(s: Sys, l': Links)
    requires Known(s) && WalksOnTrack(s) && Cut(s.links, l') && Rooted(l')
    ensures forall i: nat :: At(s, i).Walking? ==> OnTrack(l', At(s, i).m, At(s, i).p, At(s, i).cur, At(s, i).hops)
  {
    forall i: nat | At(s, i).Walking? ensures OnTrack(l', At(s, i).m, At(s, i).p, At(s, i).cur, At(s, i).hops) {
      TrackCut(s.links, l', At(s, i).m, At(s, i).p, At(s, i).cur, At(s, i).hops);
    }
  }

  lemma RootMoveKeeps(s: Sys, m: string)
    requires Inv(s)
    ensures Acyclic(Relink(s.links, m, "")) && Rooted(Relink(s.links, m, ""))
    ensures forall x, y :: y != "" && Reaches(Relink(s.links, m, ""), x, y) ==> Reaches(s.links, x, y)
  {
    CutKeepsAcyclic(s.links, Relink(s.links, m, ""));
  }

  lemma HopKeeps(s: Sys, i: nat)
    requires Inv(s) && At(s, i).Walking?
    ensures Inv(Next(s, Hop(i)))
  {
    var s', w := Next(s, Hop(i)), At(s, i);
    assert forall j: nat :: j != i ==> At(s', j) == At(s, j);
    if w.cur == "" {
      TrackEnds(s.links, w.m, w.p, w.hops);
    } else if w.cur != w.m && w.hops + 1 <= MAX_DEPTH {
      TrackHop(s.links, w.m, w.p, w.cur, w.hops);
    }
  }

  lemma CreateKeeps(s: Sys, id: string, p: string)
    requires Inv(s) && Enabled(s, Create(id, p))
    ensures Inv(Next(s, Create(id, p)))
  {
    var s' := Next(s, Create(id, p));
    assert forall j: nat :: At(s', j) == At(s, j);
    LeafKeepsAcyclic(s.links, id, p);
    forall i: nat | At(s, i).Walking? ensures OnTrack(s'.links, At(s, i).m, At(s, i).p, At(s, i).cur, At(s, i).hops) {
      TrackLeaf(s.links, id, p, At(s, i).m, At(s, i).p, At(s, i).cur, At(s, i).hops);
    }
  }

  lemma CommitKeeps(s: Sys, i: nat)
    requires Inv(s) && At(s, i).Passed?
    ensures Inv(Next(s, Commit(i)))
  {
    var s' := Next(s, Commit(i));
    assert forall j: nat :: j != i ==> At(s', j) == At(s, j) && !At(s, j).Walking? && !At(s, j).Passed?;
    RelinkKeepsAcyclic(s.links, At(s, i).m, At(s, i).p);
  }

  /** Every step keeps the invariant. */
  lemma StepKeeps(s: Sys, a: Label)
    requires Inv(s) && Enabled(s, a)
    ensures Inv(Next(s, a))
  {
    var s' := Next(s, a);
    match a
    case Begin(i, m, p) =>
      assert forall j: nat :: j != i ==> At(s', j) == At(s, j);
    case TakeLock(i) =>
      assert forall j: nat :: j != i ==> At(s', j) == At(s, j);
    case Hop(i) => HopKeeps(s, i);
    case Commit(i) => CommitKeeps(s, i);
    case CommitToRoot(i) =>
      assert forall j: nat :: j != i ==> At(s', j) == At(s, j);
      RootMoveKeeps(s, At(s, i).m);
      CutTracks(s, s'.links);
    case Abort(i) =>
      assert forall j: nat :: j != i ==> At(s', j) == At(s, j);
    case Create(id, p) => CreateKeeps(s, id, p);
    case Delete(gone) =>
      assert forall j: nat :: At(s', j) == At(s, j);
      CutKeepsAcyclic(s.links, s'.links);
      CutTracks(s, s'.links);
  }

  /** The state after a whole run of labels. */
  ghost predicate Run(ss: seq<Sys>, ls: seq<Label>) {
    && |ss| == |ls| + 1
    && forall k :: 0 <= k < |ls| ==> Enabled(ss[k], ls[k]) && ss[k + 1] == Next(ss[k], ls[k])
  }

  /** In every interleaving of moves, creates and deletes, the committed parent relation
      is acyclic at every moment, although each pre-check may have been stale and moves to the
      root, creates and deletes may commit between any two reads of the check. */
  lemma {:induction false} MovesNeverCycle(ss: seq<Sys>, ls: seq<Label>, k: nat)
    requires Run(ss, ls) && k <= |ls|
    requires Known(ss[0]) && Acyclic(ss[0].links) && ss[0].movers == map[]
    ensures Inv(ss[k]) && Acyclic(ss[k].links)
  {
    if k > 0 {
      MovesNeverCycle(ss, ls, k - 1);
      StepKeeps(ss[k - 1], ls[k - 1]);
    }
  }

  // ---- what a move does ----

  /** Staging the moved row does not change the verdict: the walk never reads m's own link. */
  lemma {:induction false} StagedUp(l: Links, m: string, p: string, q: string, n: nat)
    requires forall k: nat :: k < n ==> Up(l, p, k) != m
    ensures Up(Relink(l, m, q), p, n) == Up(l, p, n)
  {
    if n > 0 { StagedUp(l, m, p, q, n - 1); }
  }

  lemma StagedSame(l: Links, m: string, p: string, q: string, bound: nat)
    ensures Decide(Relink(l, m, q), m, p, bound) == Decide(l, m, p, bound)
  {
    var l' := Relink(l, m, q);
    if Meets(l, p, m, bound) {
      var n := FirstAt(l, p, m, bound);
      StagedUp(l, m, p, q, n);
      assert Meets(l', p, m, bound);
    } else {
      forall n: nat | n <= bound ensures Up(l', p, n) == Up(l, p, n) { StagedUp(l, m, p, q, n); }
    }
  }

  /** The first time the walk meets m. */
  lemma FirstAt(l: Links, p: string, m: string, bound: nat) returns (n: nat)
    requires Meets(l, p, m, bound)
    ensures n <= bound && Up(l, p, n) == m && forall k: nat :: k < n ==> Up(l, p, k) != m
  {
    n := 0;
    while Up(l, p, n) != m
      invariant n <= bound && forall k: nat :: k < n ==> Up(l, p, k) != m
      decreases bound - n
    {
      assert exists j: nat :: j <= bound && Up(l, p, j) == m;
      n := n + 1;
    }
  }

  /** The hops of one mover with nothing in between, until it is past its check. */
  ghost function Walked(s: Sys, i: nat): Sys
    requires At(s, i).Walking? && At(s, i).hops <= MAX_DEPTH
    decreases MAX_DEPTH - At(s, i).hops
  {
    var s' := Next(s, Hop(i));
    if At(s', i).Walking? then Walked(s', i) else s'
  }

  lemma {:induction false} WalkedFrom(s: Sys, i: nat)
    requires At(s, i).Walking? && At(s, i).hops <= MAX_DEPTH && Rooted(s.links) && At(s, i).m != ""
    requires var w := At(s, i); Up(s.links, w.p, w.hops) == w.cur && forall k: nat :: k < w.hops ==> Up(s.links, w.p, k) != w.m
    ensures
      var w := At(s, i);
      Walked(s, i) == if Decide(s.links, w.m, w.p, MAX_DEPTH).Pass? then s.(movers := s.movers[i := Passed(w.m, w.p)])
                      else s.(movers := s.movers[i := Idle], lock := s.lock - {i})
    decreases MAX_DEPTH - At(s, i).hops
  {
    var w, s' := At(s, i), Next(s, Hop(i));
    if w.cur == "" {
      WalkEnded(s.links, w.m, w.p, w.hops, MAX_DEPTH);
    } else if w.cur == w.m {
      assert Meets(s.links, w.p, w.m, MAX_DEPTH);
    } else if w.hops + 1 > MAX_DEPTH {
      assert Up(s.links, w.p, MAX_DEPTH) != "";
    } else {
      WalkedFrom(s', i);
      assert s'.movers[i := Passed(w.m, w.p)] == s.movers[i := Passed(w.m, w.p)];
      assert s'.movers[i := Idle] == s.movers[i := Idle];
    }
  }

  /** The hops decide as the check does: taken in one go from the lock on, they end past the
      check exactly when it passes on the staged state, and otherwise give the lock back with
      nothing changed. */
  lemma HopsDecide(s: Sys, i: nat)
    requires Enabled(s, TakeLock(i)) && Rooted(s.links) && At(s, i).m != ""
    ensures
      var m, p, s1 := At(s, i).m, At(s, i).p, Next(s, TakeLock(i));
      && At(s1, i).Walking? && s1.links == s.links
      && Walked(s1, i) == if Decide(Relink(s.links, m, p), m, p, MAX_DEPTH).Pass?
                          then s.(movers := s.movers[i := Passed(m, p)], lock := {i})
                          else s.(movers := s.movers[i := Idle])
  {
    var m, p, s1 := At(s, i).m, At(s, i).p, Next(s, TakeLock(i));
    StagedSame(s.links, m, p, p, MAX_DEPTH);
    WalkedFrom(s1, i);
    assert s1.movers[i := Passed(m, p)] == s.movers[i := Passed(m, p)];
    assert s1.movers[i := Idle] == s.movers[i := Idle];
    assert s1.lock - {i} == s.lock;
  }

  /** A move with the lock free goes through exactly when the check passes, and then it has done
      nothing but give the node its new parent; a refused one has done nothing. Moves to the
      root always go through. */
  lemma WholeMove(s: Sys, i: nat, m: string, p: string)
    requires Enabled(s, Begin(i, m, p)) && Rooted(s.links) && s.lock == {}
    ensures
      var s1 := Next(s, Begin(i, m, p));
      if p == "" then
        Enabled(s1, CommitToRoot(i)) && Next(s1, CommitToRoot(i)) == s.(links := s.links[m := ""], movers := s.movers[i := Idle])
      else
        && Enabled(s1, TakeLock(i)) && At(Next(s1, TakeLock(i)), i).Walking?
        && var s2 := Walked(Next(s1, TakeLock(i)), i);
        if Decide(Relink(s.links, m, p), m, p, MAX_DEPTH).Pass?
        then Enabled(s2, Commit(i)) && Next(s2, Commit(i)) == s.(links := s.links[m := p], movers := s.movers[i := Idle])
        else s2 == s.(movers := s.movers[i := Idle])
  {
    var s1 := Next(s, Begin(i, m, p));
    assert s1.movers[i := Idle] == s.movers[i := Idle];
    if p != "" {
      HopsDecide(s1, i);
      assert s1.movers[i := Passed(m, p)][i := Idle] == s.movers[i := Idle];
    }
    assert s.lock - {i} == {};
  }

  /** Some earlier step of the run began move i with this pair, and no step of mover i has
      ended it since. */
  ghost predicate BegunAt(ls: seq<Label>, k: nat, i: nat, m: string, p: string) {
    exists b :: 0 <= b < k <= |ls| && ls[b] == Begin(i, m, p) && forall j :: b < j < k ==> !Ends(ls[j], i)
  }

  predicate Ends(a: Label, i: nat) {
    (a.Begin? || a.Commit? || a.CommitToRoot? || a.Abort?) && a.i == i
  }

  lemma BegunStays(ls: seq<Label>, k: nat, i: nat, m: string, p: string)
    requires BegunAt(ls, k, i, m, p) && k < |ls| && !Ends(ls[k], i)
    ensures BegunAt(ls, k + 1, i, m, p)
  {
    var b :| 0 <= b < k && ls[b] == Begin(i, m, p) && forall j :: b < j < k ==> !Ends(ls[j], i);
    assert forall j :: b < j < k + 1 ==> !Ends(ls[j], i);
  }

  /** A step that leaves mover i at work began its move, or found it at work on the same pair. */
  lemma PairStays(s: Sys, a: Label, i: nat)
    requires Enabled(s, a) && !At(Next(s, a), i).Idle?
    ensures
      var w := At(Next(s, a), i);
      a == Begin(i, w.m, w.p) || (!Ends(a, i) && !At(s, i).Idle? && At(s, i).m == w.m && At(s, i).p == w.p)
  {
  }

  /** A mover works on the pair it was begun with. */
  lemma {:induction false} KeepsItsPair(ss: seq<Sys>, ls: seq<Label>, k: nat, i: nat)
    requires Run(ss, ls) && k <= |ls| && ss[0].movers == map[]
    ensures !At(ss[k], i).Idle? ==> BegunAt(ls, k, i, At(ss[k], i).m, At(ss[k], i).p)
  {
    if k > 0 && !At(ss[k], i).Idle? {
      var m, p := At(ss[k], i).m, At(ss[k], i).p;
      KeepsItsPair(ss, ls, k - 1, i);
      PairStays(ss[k - 1], ls[k - 1], i);
      if ls[k - 1] != Begin(i, m, p) { BegunStays(ls, k - 1, i, m, p); }
    }
  }

  /** Node x has parent q in these links. */
  predicate HasParent(l: Links, x: string, q: string) {
    x in l && l[x] == q
  }

  /** In every run a committed move does exactly what its MoveNode call asked for: the moved row,
      if it still exists, has the new parent, and every other row the one it had. Only a commit,
      a create and a delete change a link at all. */
  lemma MovesMove(ss: seq<Sys>, ls: seq<Label>, k: nat)
    requires Run(ss, ls) && k < |ls| && ss[0].movers == map[]
    ensures
      var l, l', a := ss[k].links, ss[k + 1].links, ls[k];
      match a
      case Commit(i) => (
        exists m, p :: BegunAt(ls, k, i, m, p) && (m in l ==> HasParent(l', m, p)) && l'.Keys == l.Keys &&
                       forall x :: x in l && x != m ==> HasParent(l', x, l[x]))
      case CommitToRoot(i) => (
        exists m :: BegunAt(ls, k, i, m, "") && (m in l ==> HasParent(l', m, "")) && l'.Keys == l.Keys &&
                    forall x :: x in l && x != m ==> HasParent(l', x, l[x]))
      case Create(id, p) => HasParent(l', id, p) && l'.Keys == l.Keys + {id} && forall x :: x in l && x != id ==> HasParent(l', x, l[x])
      case Delete(gone) => forall x :: (x in l' <==> x in l && x !in gone) && (x in l' ==> l'[x] == l[x])
      case _ => l' == l
  {
    var a := ls[k];
    if a.Commit? || a.CommitToRoot? { KeepsItsPair(ss, ls, k, a.i); }
  }

  // ---- why each part is needed ----

  /** Without the second check two moves that both passed the first one close a cycle. */
  lemma PreCheckAloneIsNotEnough(a: string, b: string)
    requires a != b && a != "" && b != ""
    ensures
      var l := map[a := "", b := ""];
      && Acyclic(l) && !Reaches(l, b, a) && !Reaches(l, a, b)
      && !Acyclic(Relink(Relink(l, a, b), b, a))
  {
    var l := map[a := "", b := ""];
    forall x, n: nat | 1 <= n ensures Up(l, x, n) == "" {
      UpEnds(l, x, 1, n) by { assert Up(l, x, 0) == x; }
    }
    assert Up(l, a, 0) == a && Up(l, b, 0) == b;
    var l' := Relink(Relink(l, a, b), b, a);
    assert Up(l', a, 0) == a && Up(l', a, 1) == b && Up(l', a, 2) == a;
  }

  /** A writer outside the protocol that puts back a parent it read earlier (a rename
      writes the whole row) keeps the links acyclic exactly when that parent does not lie
      below the node at commit time. */
  lemma StaleRowWrite(l: Links, x: string, readParent: string)
    requires Rooted(l) && Acyclic(l) && x in l
    ensures Acyclic(Relink(l, x, readParent)) <==> !Reaches(l, readParent, x)
  {
    if Reaches(l, readParent, x) {
      var l' := Relink(l, x, readParent);
      ReachesUnaffectedByOwnLink(l, l', x, readParent);
      var n: nat :| Up(l', readParent, n) == x;
      UpAdd(l', x, 1, n);
      assert Up(l', x, 1) == readParent by { assert Up(l', x, 0) == x; }
    } else {
      RelinkKeepsAcyclic(l, x, readParent);
    }
  }
}
