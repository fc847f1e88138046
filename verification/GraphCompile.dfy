/** From projection mutations to queries, and the quoting of string parameters. */
module GraphCompile {
  import opened GraphReplay
  import opened Wrappers

  datatype Mutation =
    | NodeUpsert(n: NodeRef, version: int, props: Props)
    | EdgeUpsert(from: NodeRef, rel: string, to: NodeRef, version: int)
    | EdgeDelete(from: NodeRef, rel: string, version: int)
    | NodeDelete(n: NodeRef)

  predicate IdentChar(c: char, first: bool) {
    'a' <= c <= 'z' || 'A' <= c <= 'Z' || c == '_' || (!first && '0' <= c <= '9')
  }

  /** Labels, relation types and property keys are interpolated, so they are checked. */
  predicate ValidIdent(s: string) {
    1 <= |s| <= 64 && IdentChar(s[0], true) && forall i :: 1 <= i < |s| ==> IdentChar(s[i], false)
  }

  /** ASCII letters and the underscore, and digits, by their codes. */
  ghost predicate LetterCode(n: int) {
    65 <= n <= 90 || 97 <= n <= 122 || n == 95
  }

  ghost predicate DigitCode(n: int) {
    48 <= n <= 57
  }

  /** An identifier is 1 to 64 letters, digits and underscores, the first no digit. */
  lemma IdentMeans(s: string)
    ensures ValidIdent(s) <==>
              && 1 <= |s| <= 64 && LetterCode(s[0] as int)
              && forall i :: 0 <= i < |s| ==> LetterCode(s[i] as int) || DigitCode(s[i] as int)
    ensures Settable("created_at") && !Settable("id") && !Settable("2nd") && !Settable("a-b") && !Settable("")
  {
    var t := "a-b";
    assert t[1] == '-';
  }

  /** Every column name that is an identifier is set, `id` alone is not. */
  predicate Settable(k: string) {
    ValidIdent(k) && k != "id"
  }

  /** Collects the SET items of a node upsert. */
  method CollectSets(props: Props) returns (sets: Props)
    ensures forall k :: k in sets <==> k in props && Settable(k)
    ensures forall k :: k in sets ==> sets[k] == props[k]
  {
    sets := map[];
    var left := props.Keys;
    while left != {}
      invariant left <= props.Keys
      invariant forall k :: k in sets <==> k in props && k !in left && Settable(k)
      invariant forall k :: k in sets ==> sets[k] == props[k]
      decreases left
    {
      var k :| k in left;
      left := left - {k};
      if Settable(k) { sets := sets[k := props[k]]; }
    }
  }

  ghost predicate ValidNames(m: Mutation) {
    match m
    case NodeUpsert(n, _, _) => ValidIdent(n.kind)
    case EdgeUpsert(from, rel, to, _) => ValidIdent(rel) && ValidIdent(from.kind) && ValidIdent(to.kind)
    case EdgeDelete(from, rel, _) => ValidIdent(rel) && ValidIdent(from.kind)
    case NodeDelete(n) => ValidIdent(n.kind)
  }

  /** `q` is the query of `m`. */
  ghost predicate Compiles(m: Mutation, q: Query) {
    match m
    case NodeUpsert(n, v, props) =>
      && q.MergeNode? && q.n == n && q.version == v
      && (forall k :: k in q.sets <==> k in props && Settable(k))
      && (forall k :: k in q.sets ==> q.sets[k] == props[k])
    case EdgeUpsert(from, rel, to, v) => q == MergeEdge(from, rel, to, v)
    case EdgeDelete(from, rel, v) => q == DropEdges(from, rel, v)
    case NodeDelete(n) => q == DeleteNode(n)
  }

  method CypherFor(m: Mutation) returns (q: Option<Query>)
    ensures q.Some? <==> ValidNames(m)
    ensures q.Some? ==> Compiles(m, q.value)
  {
    match m {
      case NodeUpsert(n, v, props) =>
        if !ValidIdent(n.kind) { return None; }
        var sets := CollectSets(props);
        return Some(MergeNode(n, v, sets));
      case EdgeUpsert(from, rel, to, v) =>
        if !ValidIdent(rel) || !ValidIdent(from.kind) || !ValidIdent(to.kind) { return None; }
        return Some(MergeEdge(from, rel, to, v));
      case EdgeDelete(from, rel, v) =>
        if !ValidIdent(rel) || !ValidIdent(from.kind) { return None; }
        return Some(DropEdges(from, rel, v));
      case NodeDelete(n) =>
        if !ValidIdent(n.kind) { return None; }
        return Some(DeleteNode(n));
    }
  }

  // ---- quoting ----

  /** strings.ReplaceAll of one character by a string. */
  function Replaced(s: string, c: char, sub: string): string {
    if s == "" then "" else (if s[0] == c then sub else [s[0]]) + Replaced(s[1..], c, sub)
  }

  function Quote(s: string): string {
    "'" + Replaced(Replaced(s, '\\', "\\\\"), '\'', "\\'") + "'"
  }

  function Prepend(c: char, r: Option<(string, string)>): Option<(string, string)> {
    if r.Some? then Some(([c] + r.value.0, r.value.1)) else None
  }

  /** The escapes of a single-quoted Cypher string that stand for another character. */
  function Unescape(c: char): char {
    match c
    case 'n' => '\n'
    case 't' => '\t'
    case 'r' => '\r'
    case _ => c
  }

  /** Reads a string literal's inside up to the closing quote: its value and what follows. */
  function Inside(t: string): Option<(string, string)> {
    if t == "" then None
    else if t[0] == '\'' then Some(("", t[1..]))
    else if t[0] != '\\' then Prepend(t[0], Inside(t[1..]))
    else if |t| == 1 then None
    else Prepend(Unescape(t[1]), Inside(t[2..]))
  }

  function Scan(t: string): Option<(string, string)> {
    if t == "" || t[0] != '\'' then None else Inside(t[1..])
  }

  function Escaped(s: string): string {
    if s == "" then "" else (if s[0] == '\\' || s[0] == '\'' then ['\\', s[0]] else [s[0]]) + Escaped(s[1..])
  }

  lemma {:induction false} ReplacedConcat(a: string, b: string, c: char, sub: string)
    ensures Replaced(a + b, c, sub) == Replaced(a, c, sub) + Replaced(b, c, sub)
  {
    if a == "" {
      assert a + b == b;
    } else {
      assert (a + b)[1..] == a[1..] + b;
      ReplacedConcat(a[1..], b, c, sub);
    }
  }

  /** The two replacement passes escape each character once. */
  lemma {:induction false} TwoPasses(s: string)
    ensures Replaced(Replaced(s, '\\', "\\\\"), '\'', "\\'") == Escaped(s)
  {
    if s != "" {
      var first := if s[0] == '\\' then "\\\\" else [s[0]];
      ReplacedConcat(first, Replaced(s[1..], '\\', "\\\\"), '\'', "\\'");
      TwoPasses(s[1..]);
      if s[0] == '\\' {
        assert Replaced("\\\\", '\'', "\\'") == "\\" + Replaced("\\", '\'', "\\'") by { assert "\\\\"[1..] == "\\"; }
        assert Replaced("\\", '\'', "\\'") == "\\" + Replaced("", '\'', "\\'") by { assert "\\"[1..] == ""; }
      } else {
        assert [s[0]][1..] == "";
      }
    }
  }

  lemma {:induction false} InsideEscaped(s: string, rest: string)
    ensures Inside(Escaped(s) + "'" + rest) == Some((s, rest))
  {
    var t := Escaped(s) + "'" + rest;
    if s == "" {
      assert t == "'" + rest;
      assert t[1..] == rest;
    } else {
      InsideEscaped(s[1..], rest);
      var tail := Escaped(s[1..]) + "'" + rest;
      if s[0] == '\\' || s[0] == '\'' {
        assert t == ['\\', s[0]] + tail;
        assert t[2..] == tail;
      } else {
        assert t == [s[0]] + tail;
        assert t[1..] == tail;
      }
      assert s == [s[0]] + s[1..];
    }
  }

  /** A quoted string is read back whole, whatever it holds and whatever follows. */
  lemma QuoteRoundTrip(s: string, rest: string)
    ensures Scan(Quote(s) + rest) == Some((s, rest))
  {
    TwoPasses(s);
    assert (Quote(s) + rest)[1..] == Escaped(s) + "'" + rest;
    InsideEscaped(s, rest);
  }
}
