/** bindDynamic: the columns of a dynamic table, or a refusal. */
module DynamicBind {
  import opened DynamicCodec
  import opened Wrappers

  /** Identifiers, by their codes: a letter or underscore, then up to 63 more or digits. */
  lemma IdentMeans(s: string)
    ensures IsIdent(s) <==>
              && 1 <= |s| <= 64 && !(48 <= s[0] as int <= 57)
              && forall i :: 0 <= i < |s| ==>
                   var n := s[i] as int; 48 <= n <= 57 || 65 <= n <= 90 || 97 <= n <= 122 || n == 95
  {
  }

  /** The structural columns and then the first n declared ones, in their order. */
  ghost predicate Starts(s: Schema, n: nat, columns: seq<string>) {
    && n <= |s.columns| && |columns| == 3 + n && columns[..3] == ["id", "tenant_id", "version"]
    && forall i :: 0 <= i < n ==> columns[3 + i] == s.columns[i].name
  }

  /** The table's columns are all distinct. */
  ghost predicate Bound(s: Schema, columns: seq<string>) {
    Starts(s, |s.columns|, columns) && forall i, j :: 0 <= i < j < |columns| ==> columns[i] != columns[j]
  }

  /** The loop's first n columns were good. */
  ghost predicate Prefix(s: Schema, n: nat, columns: seq<string>, seen: set<string>) {
    && Starts(s, n, columns) && seen == (set c | c in columns)
    && (forall i :: 0 <= i < n ==> IsIdent(s.columns[i].name) && s.columns[i].name !in STRUCTURAL)
    && (forall i, j :: 0 <= i < j < n ==> s.columns[i].name != s.columns[j].name)
  }

  /** What a name seen so far is: structural, or one of the first n. */
  lemma SeenMeans(s: Schema, n: nat, columns: seq<string>, seen: set<string>, c: string)
    requires Prefix(s, n, columns, seen)
    ensures c in seen <==> c in STRUCTURAL || exists i :: 0 <= i < n && s.columns[i].name == c
  {
    if c in seen {
      var j :| 0 <= j < |columns| && columns[j] == c;
      if j < 3 { assert columns[..3][j] == c; } else { assert s.columns[j - 3].name == c; }
    }
    if c in STRUCTURAL { assert c == columns[..3][0] || c == columns[..3][1] || c == columns[..3][2]; }
    if i :| 0 <= i < n && s.columns[i].name == c { assert columns[3 + i] == c; }
  }

  lemma PrefixBound(s: Schema, columns: seq<string>, seen: set<string>)
    requires Prefix(s, |s.columns|, columns, seen)
    ensures Bound(s, columns)
  {
    forall i, j | 0 <= i < j < |columns| ensures columns[i] != columns[j] {
      if i < 3 { assert columns[..3][i] == columns[i] && columns[i] in STRUCTURAL; }
      if j < 3 { assert columns[..3][j] == columns[j]; } else { assert columns[j] == s.columns[j - 3].name; }
      if 3 <= i { assert columns[i] == s.columns[i - 3].name; }
    }
  }

  /** The last loop: every index is on known columns. */
  method IndexesKnown(s: Schema, ghost columns: seq<string>, seen: set<string>) returns (ok: bool)
    requires Prefix(s, |s.columns|, columns, seen)
    ensures ok <==> forall i :: 0 <= i < |s.indexes| ==> forall c :: c in Items(s.indexes[i].columns) ==> Known(s, c)
  {
    for i := 0 to |s.indexes|
      invariant forall k :: 0 <= k < i ==> forall c :: c in Items(s.indexes[k].columns) ==> Known(s, c)
    {
      var cols := Items(s.indexes[i].columns);
      for j := 0 to |cols|
        invariant forall c :: c in cols[..j] ==> Known(s, c)
      {
        SeenMeans(s, |s.columns|, columns, seen, cols[j]);
        if cols[j] !in seen {
          assert cols[j] in Items(s.indexes[i].columns) && !Known(s, cols[j]);
          return false;
        }
      }
      assert cols[..|cols|] == cols;
    }
    return true;
  }

  /** A schema is accepted exactly if it binds; the table then has the structural columns and,
      in their order, the declared ones, all distinct. */
  method BindDynamic(s: Schema) returns (r: Option<seq<string>>)
    ensures r.Some? <==> Binds(s)
    ensures r.Some? ==> Bound(s, r.value)
  {
    if s.table == "" || !IsIdent(s.table) { return None; }
    var columns, seen := ["id", "tenant_id", "version"], STRUCTURAL;
    assert Prefix(s, 0, columns, seen);
    for i := 0 to |s.columns|
      invariant Prefix(s, i, columns, seen)
    {
      var name := s.columns[i].name;
      SeenMeans(s, i, columns, seen, name);
      if name in STRUCTURAL || !IsIdent(name) || name in seen { return None; }
      columns, seen := columns + [name], seen + {name};
    }
    var known := IndexesKnown(s, columns, seen);
    if !known { return None; }
    PrefixBound(s, columns, seen);
    return Some(columns);
  }
}
