/** The version-gated MERGE, MATCH, SET and DELETE queries of the graph projection, given a
    state semantics (openCypher Query Language Reference, Version 9), and their replay in
    any order. */
module GraphReplay {
  import opened Wrappers

  datatype Value = Null | Int(n: int) | Text(s: string)

  /** A node is found by label and id. */
  datatype NodeRef = NodeRef(kind: string, id: string)

  datatype Edge = Edge(from: NodeRef, rel: string, to: NodeRef)

  type Props = map<string, Value>

  /** Nodes with their properties; edges with their version. */
  datatype Graph = Graph(nodes: map<NodeRef, Props>, edges: map<Edge, int>)

  /** The query shapes; identifiers are text, everything else is a parameter. */
  datatype Query =
    | MergeNode(n: NodeRef, version: int, sets: Props)
    | MergeEdge(from: NodeRef, rel: string, to: NodeRef, version: int)
    | DropEdges(from: NodeRef, rel: string, version: int)
    | DeleteNode(n: NodeRef)

  // ---- semantics ----

  /** coalesce(n.version, 0) */
  function Version(p: Props): int {
    if "version" in p && p["version"].Int? then p["version"].n else 0
  }

  /** SET of several keys; setting null removes the property. */
  function SetAll(p: Props, q: Props): Props {
    map k | k in p.Keys + q.Keys && !(k in q && q[k].Null?) :: if k in q then q[k] else p[k]
  }

  function MergedNode(g: Graph, n: NodeRef): Graph {
    if n in g.nodes then g else g.(nodes := g.nodes[n := map[]])
  }

  function Exec(g: Graph, q: Query): Graph {
    match q
    case MergeNode(n, v, sets) =>
      var g1 := MergedNode(g, n);
      if Version(g1.nodes[n]) <= v then g1.(nodes := g1.nodes[n := SetAll(g1.nodes[n], sets)]) else g1
    case MergeEdge(from, rel, to, v) =>
      if from !in g.nodes || Version(g.nodes[from]) > v then g else
        var g1 := MergedNode(g, to);
        var merged := g1.edges[Edge(from, rel, to) := v];
        g1.(edges := map e | e in merged && !(e.from == from && e.rel == rel && e.to.id != to.id) :: merged[e])
    case DropEdges(from, rel, v) =>
      if from !in g.nodes || Version(g.nodes[from]) > v then g
      else g.(edges := map e | e in g.edges && !(e.from == from && e.rel == rel) :: g.edges[e])
    case DeleteNode(n) =>
      Graph(g.nodes - {n}, map e | e in g.edges && e.from != n && e.to != n :: g.edges[e])
  }

  function Replay(g: Graph, log: seq<Query>): Graph {
    if log == [] then g else Exec(Replay(g, log[..|log| - 1]), log[|log| - 1])
  }

  // ---- one aggregate's batches ----

  /** What version v of the aggregate says: its properties, and per relation its target. */
  datatype Content = Content(sets: Props, links: map<string, Option<NodeRef>>)

  /** The history of aggregate `f`: one content per version, the same property keys and
      relations in each, the version among the properties, and one target label per relation. */
  datatype History = History(f: NodeRef, content: map<int, Content>, keys: set<string>, labels: map<string, string>)

  ghost predicate WellFormed(h: History) {
    forall v :: v in h.content ==> ContentOk(h, v)
  }

  ghost predicate ContentOk(h: History, v: int)
    requires v in h.content
  {
    var c := h.content[v];
    && 0 <= v && c.sets.Keys == h.keys && c.links.Keys == h.labels.Keys
    && "version" in c.sets && c.sets["version"] == Int(v)
    && forall r :: r in c.links && c.links[r].Some? ==> c.links[r].value.kind == h.labels[r]
  }

  function NodeOf(h: History, v: int): Query
    requires v in h.content
  {
    MergeNode(h.f, v, h.content[v].sets)
  }

  function EdgeOf(h: History, v: int, r: string): Query
    requires v in h.content && r in h.content[v].links
  {
    var to := h.content[v].links[r];
    if to.Some? then MergeEdge(h.f, r, to.value, v) else DropEdges(h.f, r, v)
  }

  /** A query of one of the aggregate's batches, of version at most `top`. */
  ghost predicate Own(h: History, top: int, m: Query) {
    exists v :: v in h.content && v <= top &&
      (m == NodeOf(h, v) || exists r :: r in h.content[v].links && m == EdgeOf(h, v, r))
  }

  /** A query of another aggregate; it may still point at `f`, or delete what `f` points at. */
  predicate Foreign(h: History, m: Query) {
    match m
    case MergeNode(n, _, _) => n != h.f
    case MergeEdge(from, _, _, _) => from != h.f
    case DropEdges(from, _, _) => from != h.f
    case DeleteNode(n) => n != h.f
  }

  ghost predicate Allowed(h: History, top: int, m: Query) {
    Own(h, top, m) || Foreign(h, m)
  }

  ghost predicate Admissible(h: History, top: int, log: seq<Query>) {
    forall i {:trigger Allowed(h, top, log[i])} :: 0 <= i < |log| ==> Allowed(h, top, log[i])
  }

  // ---- what every step keeps ----

  function NodeVersion(g: Graph, n: NodeRef): int {
    if n in g.nodes then Version(g.nodes[n]) else 0
  }

  /** f's edges go to the relation's label, at most one per relation, and f's version is
      at most `top`. */
  ghost predicate Tidy(h: History, top: int, g: Graph) {
    && (forall e :: e in g.edges && e.from == h.f && e.rel in h.labels ==> e.to.kind == h.labels[e.rel])
    && (forall e, e' :: e in g.edges && e' in g.edges && e.from == e'.from == h.f && e.rel == e'.rel && e.rel in h.labels
                        ==> e == e')
    && NodeVersion(g, h.f) <= top
  }

  lemma ForeignStep(h: History, g: Graph, m: Query)
    requires Foreign(h, m)
    ensures NodeVersion(Exec(g, m), h.f) == NodeVersion(g, h.f)
    ensures h.f in g.nodes ==> h.f in Exec(g, m).nodes && Exec(g, m).nodes[h.f] == g.nodes[h.f]
    ensures forall e: Edge :: e.from == h.f ==>
              (e in Exec(g, m).edges <==> e in g.edges && m != DeleteNode(e.to)) &&
              (e in Exec(g, m).edges ==> Exec(g, m).edges[e] == g.edges[e])
  {
  }

  lemma NodeStep(h: History, g: Graph, v: int)
    requires WellFormed(h) && v in h.content
    ensures
      var g' := Exec(g, NodeOf(h, v));
      && h.f in g'.nodes && g'.edges == g.edges
      && (NodeVersion(g, h.f) <= v ==>
            NodeVersion(g', h.f) == v &&
            g'.nodes[h.f] == SetAll(if h.f in g.nodes then g.nodes[h.f] else map[], h.content[v].sets))
      && (NodeVersion(g, h.f) > v ==> h.f in g.nodes && g'.nodes[h.f] == g.nodes[h.f])
  {
    assert ContentOk(h, v);
  }

  /** Relation r leads exactly where version `v` says, on edges of that version. */
  ghost predicate Linked(h: History, v: int, g: Graph, r: string)
    requires v in h.content && r in h.content[v].links
  {
    forall e: Edge :: e.from == h.f && e.rel == r ==>
      (e in g.edges <==> h.content[v].links[r] == Some(e.to)) && (e in g.edges ==> g.edges[e] == v)
  }

  /** f's edges of other relations than r are the same. */
  ghost predicate SameEdges(h: History, g: Graph, g': Graph, r: string) {
    forall e: Edge :: e.from == h.f && e.rel != r ==>
      (e in g'.edges <==> e in g.edges) && (e in g.edges ==> g'.edges[e] == g.edges[e])
  }

  /** An edge mutation that passes the gate leaves exactly its target; one that does not
      changes nothing. */
  lemma EdgeStep(h: History, top: int, g: Graph, v: int, r: string)
    requires WellFormed(h) && v in h.content && r in h.content[v].links && Tidy(h, top, g)
    ensures
      var g' := Exec(g, EdgeOf(h, v, r));
      && NodeVersion(g', h.f) == NodeVersion(g, h.f)
      && (h.f in g.nodes ==> h.f in g'.nodes && g'.nodes[h.f] == g.nodes[h.f])
      && (if h.f in g.nodes && NodeVersion(g, h.f) <= v
          then Linked(h, v, g', r) && SameEdges(h, g, g', r)
          else g' == g)
  {
    assert ContentOk(h, v);
  }

  /** f has no property outside the aggregate's keys, and stores no null. */
  ghost predicate Clean(h: History, g: Graph) {
    h.f in g.nodes ==> g.nodes[h.f].Keys <= h.keys && forall k :: k in g.nodes[h.f] ==> g.nodes[h.f][k] != Null
  }

  lemma OwnCases(h: History, top: int, m: Query) returns (v: int, r: Option<string>)
    requires Own(h, top, m)
    ensures v in h.content && v <= top
    ensures r.None? ==> m == NodeOf(h, v)
    ensures r.Some? ==> r.value in h.content[v].links && m == EdgeOf(h, v, r.value)
  {
    v :| v in h.content && v <= top && (m == NodeOf(h, v) || exists r :: r in h.content[v].links && m == EdgeOf(h, v, r));
    if m == NodeOf(h, v) {
      r := None;
    } else {
      var x :| x in h.content[v].links && m == EdgeOf(h, v, x);
      r := Some(x);
    }
  }

  /** Every step keeps the graph tidy, and the node's version never falls. */
  lemma TidyStep(h: History, top: int, g: Graph, m: Query)
    requires WellFormed(h) && Tidy(h, top, g) && Allowed(h, top, m)
    ensures Tidy(h, top, Exec(g, m)) && NodeVersion(g, h.f) <= NodeVersion(Exec(g, m), h.f)
    ensures Clean(h, g) ==> Clean(h, Exec(g, m))
  {
    if Foreign(h, m) {
      ForeignStep(h, g, m);
      if Clean(h, g) { PlaceholderIsClean(h, g, m); }
    } else {
      var v, r := OwnCases(h, top, m);
      assert ContentOk(h, v);
      if r.None? { NodeStep(h, g, v); } else { EdgeStep(h, top, g, v, r.value); }
    }
  }

  lemma PlaceholderIsClean(h: History, g: Graph, m: Query)
    requires Foreign(h, m) && Clean(h, g)
    ensures Clean(h, Exec(g, m))
  {
  }

  // ---- convergence ----

  function Prop(p: Props, k: string): Value {
    if k in p then p[k] else Null
  }

  /** The node carries version `top` and its properties. */
  ghost predicate AtTop(h: History, top: int, g: Graph)
    requires top in h.content
  {
    && h.f in g.nodes && NodeVersion(g, h.f) == top
    && forall k :: k in h.keys ==> Prop(g.nodes[h.f], k) == Prop(h.content[top].sets, k)
  }

  lemma ReachTop(h: History, top: int, g: Graph)
    requires WellFormed(h) && top in h.content && Tidy(h, top, g)
    ensures AtTop(h, top, Exec(g, NodeOf(h, top)))
  {
    assert ContentOk(h, top);
    NodeStep(h, g, top);
  }

  /** `m` deletes the node that relation r leads to. */
  ghost predicate Loses(h: History, v: int, r: string, m: Query)
    requires v in h.content && r in h.content[v].links
  {
    h.content[v].links[r].Some? && m == DeleteNode(h.content[v].links[r].value)
  }

  lemma TopStays(h: History, top: int, g: Graph, m: Query)
    requires WellFormed(h) && top in h.content && Tidy(h, top, g) && AtTop(h, top, g)
    requires Allowed(h, top, m)
    ensures AtTop(h, top, Exec(g, m))
    ensures forall r :: r in h.content[top].links && Linked(h, top, g, r) && !Loses(h, top, r, m) ==> Linked(h, top, Exec(g, m), r)
  {
    if Foreign(h, m) {
      ForeignStep(h, g, m);
    } else {
      var v, r := OwnCases(h, top, m);
      if r.None? {
        NodeStep(h, g, v);
        if v == top { ReachTop(h, top, g); }
      } else {
        EdgeStep(h, top, g, v, r.value);
      }
    }
  }

  /** A tidy graph with the target's edge at the top version has the relation linked. */
  lemma LinkedByEdge(h: History, top: int, g: Graph, r: string, to: NodeRef)
    requires WellFormed(h) && top in h.content && Tidy(h, top, g)
    requires r in h.content[top].links && h.content[top].links[r] == Some(to)
    requires Edge(h.f, r, to) in g.edges && g.edges[Edge(h.f, r, to)] == top
    ensures Linked(h, top, g, r)
  {
    assert ContentOk(h, top);
  }

  /** No query but the relation's own, and none of an older version, brings its edge about. */
  lemma EdgeWasThere(h: History, top: int, g: Graph, m: Query, e: Edge)
    requires WellFormed(h) && top in h.content && Tidy(h, top, g) && AtTop(h, top, g) && Allowed(h, top, m)
    requires e.from == h.f && e.rel in h.content[top].links && m != EdgeOf(h, top, e.rel)
    requires e in Exec(g, m).edges
    ensures e in g.edges && Exec(g, m).edges[e] == g.edges[e] && m != DeleteNode(e.to)
  {
    if Foreign(h, m) {
      ForeignStep(h, g, m);
    } else {
      var v, r := OwnCases(h, top, m);
      if r.None? { NodeStep(h, g, v); } else { EdgeStep(h, top, g, v, r.value); }
    }
  }

  /** Only the relation's own query links it again. */
  lemma LostStays(h: History, top: int, g: Graph, m: Query, r: string)
    requires WellFormed(h) && top in h.content && Tidy(h, top, g) && AtTop(h, top, g) && Allowed(h, top, m)
    requires r in h.content[top].links && h.content[top].links[r].Some? && m != EdgeOf(h, top, r)
    ensures Linked(h, top, Exec(g, m), r) ==> Linked(h, top, g, r) && !Loses(h, top, r, m)
  {
    if Linked(h, top, Exec(g, m), r) {
      var to := h.content[top].links[r].value;
      var e := Edge(h.f, r, to);
      assert e in Exec(g, m).edges && Exec(g, m).edges[e] == top;
      EdgeWasThere(h, top, g, m, e);
      LinkedByEdge(h, top, g, r, to);
    }
  }

  lemma LinkTop(h: History, top: int, g: Graph, r: string)
    requires WellFormed(h) && top in h.content && r in h.content[top].links
    requires Tidy(h, top, g) && AtTop(h, top, g)
    ensures Linked(h, top, Exec(g, EdgeOf(h, top, r)), r)
  {
    EdgeStep(h, top, g, top, r);
  }

  lemma AllowedPrefix(h: History, top: int, log: seq<Query>, n: nat)
    requires Admissible(h, top, log) && n <= |log|
    ensures Admissible(h, top, log[..n])
  {
    forall i | 0 <= i < n ensures Allowed(h, top, log[..n][i]) { assert Allowed(h, top, log[i]); }
  }

  lemma {:induction false} TidyAlong(h: History, top: int, g: Graph, log: seq<Query>)
    requires WellFormed(h) && Tidy(h, top, g) && Admissible(h, top, log)
    ensures Tidy(h, top, Replay(g, log)) && (Clean(h, g) ==> Clean(h, Replay(g, log)))
    ensures NodeVersion(g, h.f) <= NodeVersion(Replay(g, log), h.f)
  {
    if log != [] {
      var n := |log| - 1;
      AllowedPrefix(h, top, log, n);
      TidyAlong(h, top, g, log[..n]);
      TidyStep(h, top, Replay(g, log[..n]), log[n]);
    }
  }

  /** From the position of the node upsert on the node stays at the top. */
  lemma {:induction false} TopFrom(h: History, top: int, g: Graph, log: seq<Query>, i: nat)
    requires WellFormed(h) && top in h.content && Tidy(h, top, g) && Admissible(h, top, log)
    requires i < |log| && log[i] == NodeOf(h, top)
    ensures AtTop(h, top, Replay(g, log))
  {
    var n := |log| - 1;
    AllowedPrefix(h, top, log, n);
    TidyAlong(h, top, g, log[..n]);
    if i == n {
      ReachTop(h, top, Replay(g, log[..n]));
    } else {
      TopFrom(h, top, g, log[..n], i);
      TopStays(h, top, Replay(g, log[..n]), log[n]);
    }
  }

  /** What one more query does to relation r. */
  lemma LinkedNext(h: History, top: int, g: Graph, m: Query, r: string)
    requires WellFormed(h) && top in h.content && r in h.content[top].links
    requires Tidy(h, top, g) && AtTop(h, top, g) && Allowed(h, top, m)
    ensures m == EdgeOf(h, top, r) || (Linked(h, top, g, r) && !Loses(h, top, r, m)) ==> Linked(h, top, Exec(g, m), r)
    ensures h.content[top].links[r].Some? && Linked(h, top, Exec(g, m), r) ==>
              m == EdgeOf(h, top, r) || (Linked(h, top, g, r) && !Loses(h, top, r, m))
  {
    if m == EdgeOf(h, top, r) {
      LinkTop(h, top, g, r);
    } else {
      TopStays(h, top, g, m);
      if h.content[top].links[r].Some? { LostStays(h, top, g, m, r); }
    }
  }

  /** From position j on, relation r's query has run and its target was not deleted since. */
  ghost predicate Survives(h: History, v: int, log: seq<Query>, r: string, j: nat)
    requires v in h.content && r in h.content[v].links
  {
    exists i :: j <= i < |log| && log[i] == EdgeOf(h, v, r) && forall l :: i < l < |log| ==> !Loses(h, v, r, log[l])
  }

  lemma SurvivesNext(h: History, v: int, log: seq<Query>, r: string, j: nat)
    requires v in h.content && r in h.content[v].links && j < |log|
    ensures
      var n := |log| - 1;
      Survives(h, v, log, r, j) <==> log[n] == EdgeOf(h, v, r) || (Survives(h, v, log[..n], r, j) && !Loses(h, v, r, log[n]))
  {
    var n := |log| - 1;
    if Survives(h, v, log, r, j) && log[n] != EdgeOf(h, v, r) {
      var i :| j <= i < |log| && log[i] == EdgeOf(h, v, r) && forall l :: i < l < |log| ==> !Loses(h, v, r, log[l]);
      assert log[..n][i] == EdgeOf(h, v, r) && forall l :: i < l < n ==> !Loses(h, v, r, log[..n][l]);
    }
    if log[n] != EdgeOf(h, v, r) && Survives(h, v, log[..n], r, j) && !Loses(h, v, r, log[n]) {
      var i :| j <= i < n && log[..n][i] == EdgeOf(h, v, r) && forall l :: i < l < n ==> !Loses(h, v, r, log[..n][l]);
      assert log[i] == EdgeOf(h, v, r);
      forall l | i < l < |log| ensures !Loses(h, v, r, log[l]) {
        if l < n { assert log[..n][l] == log[l]; }
      }
    }
  }

  /** From its query on, a relation without a target has none; one with a target has it
      exactly when that was not deleted since the query last ran. */
  lemma {:induction false} LinkedFrom(h: History, top: int, g: Graph, log: seq<Query>, i: nat, j: nat, r: string)
    requires WellFormed(h) && top in h.content && r in h.content[top].links
    requires Tidy(h, top, g) && Admissible(h, top, log)
    requires i < j < |log| && log[i] == NodeOf(h, top) && log[j] == EdgeOf(h, top, r)
    ensures Linked(h, top, Replay(g, log), r) <==> h.content[top].links[r].None? || Survives(h, top, log, r, j)
  {
    var n := |log| - 1;
    AllowedPrefix(h, top, log, n);
    TidyAlong(h, top, g, log[..n]);
    TopFrom(h, top, g, log[..n], i);
    assert Allowed(h, top, log[n]);
    LinkedNext(h, top, Replay(g, log[..n]), log[n], r);
    if j < n { LinkedFrom(h, top, g, log[..n], i, j, r); }
    SurvivesNext(h, top, log, r, j);
  }

  /** The event batch of one version: the node, then every relation. */
  function Batch(h: History, v: int, rels: seq<string>): seq<Query>
    requires v in h.content && forall k :: 0 <= k < |rels| ==> rels[k] in h.content[v].links
  {
    [NodeOf(h, v)] + seq(|rels|, k requires 0 <= k < |rels| => EdgeOf(h, v, rels[k]))
  }

  /** `batch` occurs in `log` at increasing positions. */
  ghost predicate Keeps(log: seq<Query>, batch: seq<Query>, pos: seq<nat>) {
    && |pos| == |batch|
    && (forall k :: 0 <= k < |pos| ==> pos[k] < |log| && log[pos[k]] == batch[k])
    && (forall k, l :: 0 <= k < l < |pos| ==> pos[k] < pos[l])
  }

  /** However the batches of versions up to `top` are interleaved, repeated or cut short,
      among themselves and with other aggregates' queries: once the batch of `top` has run
      in order, the node is exactly that of `top`, and each relation leads where `top` says
      exactly when its target was not deleted since the relation's query last ran. */
  lemma ReplayConverges(h: History, top: int, g: Graph, log: seq<Query>, rels: seq<string>, pos: seq<nat>)
    requires WellFormed(h) && top in h.content && Tidy(h, top, g) && Admissible(h, top, log)
    requires forall r :: r in h.content[top].links <==> r in rels
    requires Keeps(log, Batch(h, top, rels), pos)
    ensures AtTop(h, top, Replay(g, log))
    ensures forall k :: 0 <= k < |rels| ==>
              (Linked(h, top, Replay(g, log), rels[k]) <==>
               h.content[top].links[rels[k]].None? || Survives(h, top, log, rels[k], pos[k + 1]))
    ensures Clean(h, g) ==> Replay(g, log).nodes[h.f] == SetAll(map[], h.content[top].sets)
  {
    TopFrom(h, top, g, log, pos[0]);
    forall k | 0 <= k < |rels|
      ensures Linked(h, top, Replay(g, log), rels[k]) <==>
              h.content[top].links[rels[k]].None? || Survives(h, top, log, rels[k], pos[k + 1])
    {
      assert log[pos[k + 1]] == Batch(h, top, rels)[k + 1];
      LinkedFrom(h, top, g, log, pos[0], pos[k + 1], rels[k]);
    }
    TidyAlong(h, top, g, log);
    if Clean(h, g) { CleanTop(h, top, Replay(g, log)); }
  }

  lemma CleanTop(h: History, top: int, g: Graph)
    requires WellFormed(h) && top in h.content && AtTop(h, top, g) && Clean(h, g)
    ensures g.nodes[h.f] == SetAll(map[], h.content[top].sets)
  {
    assert ContentOk(h, top);
    var p, q := g.nodes[h.f], SetAll(map[], h.content[top].sets);
    forall k ensures (k in p <==> k in q) && (k in p ==> p[k] == q[k]) {
      if k in h.keys { assert Prop(p, k) == Prop(h.content[top].sets, k); }
    }
  }

  /** The version never falls and there is never more than one outgoing edge per relation,
      after any part of any such log. */
  lemma NeverRegresses(h: History, top: int, g: Graph, log: seq<Query>, i: nat)
    requires WellFormed(h) && Tidy(h, top, g) && Admissible(h, top, log) && i < |log|
    ensures NodeVersion(Replay(g, log[..i]), h.f) <= NodeVersion(Replay(g, log[..i + 1]), h.f) <= top
    ensures Tidy(h, top, Replay(g, log[..i]))
  {
    assert log[..i + 1][..i] == log[..i];
    AllowedPrefix(h, top, log, i);
    TidyAlong(h, top, g, log[..i]);
    TidyStep(h, top, Replay(g, log[..i]), log[i]);
  }

  // ---- deletes ----

  lemma {:induction false} ReplayJoin(g: Graph, a: seq<Query>, b: seq<Query>)
    ensures Replay(g, a + b) == Replay(Replay(g, a), b)
  {
    if b == [] {
      assert a + b == a;
    } else {
      var n := |b| - 1;
      assert (a + b)[..|a| + n] == a + b[..n] && (a + b)[|a| + n] == b[n];
      ReplayJoin(g, a, b[..n]);
      assert Replay(g, a + b) == Exec(Replay(g, a + b[..n]), b[n]);
    }
  }

  /** The delete is the one query without a gate, and it takes the version with it. After it
      the aggregate starts again from nothing: whatever version the node had, it converges to
      the highest version delivered since, even an older one. */
  lemma DeleteForgets(h: History, v: int, g: Graph, before: seq<Query>, after: seq<Query>, rels: seq<string>, pos: seq<nat>)
    requires WellFormed(h) && v in h.content && Admissible(h, v, after)
    requires forall r :: r in h.content[v].links <==> r in rels
    requires Keeps(after, Batch(h, v, rels), pos)
    ensures
      var end := Replay(g, before + [DeleteNode(h.f)] + after);
      AtTop(h, v, end) && end.nodes[h.f] == SetAll(map[], h.content[v].sets)
  {
    var log := before + [DeleteNode(h.f)];
    ReplayJoin(g, log, after);
    assert log[..|before|] == before;
    assert ContentOk(h, v);
    ReplayConverges(h, v, Replay(g, log), after, rels, pos);
  }

  /** `m` makes node n exist: its own upsert, or an edge upsert to it that passes its gate. */
  ghost predicate Creates(g: Graph, m: Query, n: NodeRef) {
    match m
    case MergeNode(n', _, _) => n' == n
    case MergeEdge(from, _, to, v) => to == n && from in g.nodes && Version(g.nodes[from]) <= v
    case _ => false
  }

  lemma ThereNext(g: Graph, m: Query, n: NodeRef)
    requires m != DeleteNode(n)
    ensures n in Exec(g, m).nodes <==> n in g.nodes || Creates(g, m, n)
  {
  }

  /** Some query of the log created the node. */
  ghost predicate Created(g: Graph, log: seq<Query>, n: NodeRef) {
    exists i :: 0 <= i < |log| && Creates(Replay(g, log[..i]), log[i], n)
  }

  lemma CreatedNext(g: Graph, log: seq<Query>, n: NodeRef)
    requires log != []
    ensures
      var k := |log| - 1;
      Created(g, log, n) <==> Created(g, log[..k], n) || Creates(Replay(g, log[..k]), log[k], n)
  {
    var k := |log| - 1;
    forall i | 0 <= i < k
      ensures Creates(Replay(g, log[..k][..i]), log[..k][i], n) <==> Creates(Replay(g, log[..i]), log[i], n)
    {
      assert log[..k][..i] == log[..i];
    }
  }

  lemma {:induction false} ThereIff(g: Graph, log: seq<Query>, n: NodeRef)
    requires n !in g.nodes && DeleteNode(n) !in log
    ensures n in Replay(g, log).nodes <==> Created(g, log, n)
  {
    if log != [] {
      var k := |log| - 1;
      ThereIff(g, log[..k], n);
      ThereNext(Replay(g, log[..k]), log[k], n);
      CreatedNext(g, log, n);
    }
  }

  /** After its last delete a node is there again exactly when some later query created it. */
  lemma GoneUnlessCreated(g: Graph, before: seq<Query>, after: seq<Query>, n: NodeRef)
    requires DeleteNode(n) !in after
    ensures
      var log := before + [DeleteNode(n)];
      n in Replay(g, log + after).nodes <==> Created(Replay(g, log), after, n)
  {
    var log := before + [DeleteNode(n)];
    ReplayJoin(g, log, after);
    assert log[..|before|] == before;
    ThereIff(Replay(g, log), after, n);
  }

  /** An edge upsert that passes its gate leaves its target as the only one exactly when no
      edge of the relation leads to the same id under another label: stale targets are told
      apart by id alone. */
  lemma StaleTargets(g: Graph, from: NodeRef, rel: string, to: NodeRef, v: int)
    requires from in g.nodes && Version(g.nodes[from]) <= v
    ensures (forall e :: e in Exec(g, MergeEdge(from, rel, to, v)).edges && e.from == from && e.rel == rel ==> e.to == to) <==>
            (forall e :: e in g.edges && e.from == from && e.rel == rel && e.to.id == to.id ==> e.to == to)
  {
    var g' := Exec(g, MergeEdge(from, rel, to, v));
    forall e | e in g.edges && e.from == from && e.rel == rel && e.to.id == to.id ensures e in g'.edges {
    }
  }
}
