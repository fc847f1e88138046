/** A ReplacingMergeTree table: a bag of rows ordered by a rank column. Readers
    see, per key, a row of greatest rank; background merges may drop any row that
    another row of the same key outranks or equals. Nothing here depends on what a
    row holds, so facts, events and watermarks share it. */
module MergeTree {

  datatype Row<K, V> = Row(key: K, value: V, rank: int)

  type Table<K(==), V(==)> = multiset<Row<K, V>>

  function Keys<K(==), V(==)>(t: Table<K, V>): set<K> {
    set r | r in t :: r.key
  }

  /** `r` is an answer argMax may give for its key: no row of the key outranks it. */
  ghost predicate Wins<K(!new), V(!new)>(t: Table<K, V>, r: Row<K, V>) {
    && r in t
    && forall s :: s in t && s.key == r.key ==> s.rank <= r.rank
  }

  /** Rows of one key and one rank are copies of each other, so a tie is harmless. */
  ghost predicate Coherent<K(!new), V(!new)>(t: Table<K, V>) {
    forall r, s :: r in t && s in t && r.key == s.key && r.rank == s.rank ==> r == s
  }

  ghost predicate Covered<K(!new), V(!new)>(t: Table<K, V>, r: Row<K, V>) {
    exists s :: s in t && s.key == r.key && r.rank <= s.rank
  }

  /** A background merge: rows only disappear, and each one that does is covered by a
      surviving row of its key with the same or a greater rank. */
  ghost predicate Merged<K(!new), V(!new)>(t: Table<K, V>, t': Table<K, V>) {
    && t' <= t
    && forall r {:trigger Covered(t', r)} :: r in t ==> Covered(t', r)
  }

  /** What readers see is exactly `m`: same keys, and every winning row carries m's value. */
  ghost predicate Shows<K(!new), V(!new)>(t: Table<K, V>, m: map<K, V>) {
    && m.Keys == Keys(t)
    && forall r :: Wins(t, r) ==> m[r.key] == r.value
  }

  /** `t'` is `t` after DELETE WHERE `gone`: each row keeps all of its copies or none. */
  ghost predicate Deleted<K(!new), V(!new)>(t: Table<K, V>, t': Table<K, V>, gone: Row<K, V> -> bool) {
    forall r :: t'[r] == if gone(r) then 0 else t[r]
  }

  /** The distinct keys of the rows a condition selects: uniqExact(key) WHERE p. */
  function Hit<K(==), V(==)>(t: Table<K, V>, p: Row<K, V> -> bool): set<K> {
    set r | r in t && p(r) :: r.key
  }

  /** A one-row-per-key table after deleting the keys `gone` selects, and those keys. */
  function Without<K, V>(m: map<K, V>, gone: K -> bool): map<K, V> {
    map k | k in m && !gone(k) :: m[k]
  }

  function Matching<K, V>(m: map<K, V>, gone: K -> bool): set<K> {
    set k | k in m && gone(k)
  }

  /** Every stored key has a winning row. */
  lemma {:induction false} WinnerExists<K(!new), V(!new)>(t: Table<K, V>, k: K) returns (w: Row<K, V>)
    requires k in Keys(t)
    ensures Wins(t, w) && w.key == k
  {
    var mine := set r | r in t && r.key == k;
    var r :| r in t && r.key == k;
    assert r in mine;
    w := r;
    var left := mine;
    while left != {}
      invariant left <= mine
      invariant w in mine
      invariant forall s :: s in mine && s !in left ==> s.rank <= w.rank
      decreases left
    {
      var s :| s in left;
      if w.rank < s.rank { w := s; }
      left := left - {s};
    }
  }

  /** The merges are exactly the drops that leave each key one of its winning rows, so a
      table may shrink to one row per key and no further. */
  lemma MergedIff<K(!new), V(!new)>(t: Table<K, V>, t': Table<K, V>)
    requires t' <= t
    ensures Merged(t, t') <==> forall k :: k in Keys(t) ==> exists w :: w in t' && w.key == k && Wins(t, w)
  {
    if Merged(t, t') {
      forall k | k in Keys(t) ensures exists w :: w in t' && w.key == k && Wins(t, w) {
        var top := WinnerExists(t, k);
        assert Covered(t', top);
        var w :| w in t' && w.key == k && top.rank <= w.rank;
        assert Wins(t, w);
      }
    }
    if forall k :: k in Keys(t) ==> exists w :: w in t' && w.key == k && Wins(t, w) {
      forall r | r in t ensures Covered(t', r) {
        assert r.key in Keys(t);
      }
    }
  }

  /** Merges are invisible: whatever they drop, readers see the same map. */
  lemma MergeKeepsView<K(!new), V(!new)>(t: Table<K, V>, t': Table<K, V>, m: map<K, V>)
    requires Merged(t, t') && Shows(t, m) && Coherent(t)
    ensures Shows(t', m) && Coherent(t')
  {
    assert Keys(t') == Keys(t) by {
      forall k | k in Keys(t) ensures k in Keys(t') {
        var r :| r in t && r.key == k;
        assert Covered(t', r);
      }
    }
    forall w | Wins(t', w) ensures Wins(t, w) {
      forall r | r in t && r.key == w.key ensures r.rank <= w.rank {
        assert Covered(t', r);
      }
    }
  }

  lemma WinsBefore<K(!new), V(!new)>(t: Table<K, V>, r: Row<K, V>, w: Row<K, V>)
    requires Wins(t + multiset{r}, w) && w != r
    requires forall s :: s in t && s.key == r.key ==> s.rank < r.rank || s == r
    ensures Wins(t, w) && w.key != r.key
  {
    var t' := t + multiset{r};
    assert r in t' && forall s :: s in t ==> s in t';
  }

  lemma InsertCoherent<K(!new), V(!new)>(t: Table<K, V>, r: Row<K, V>)
    requires Coherent(t) && forall s :: s in t && s.key == r.key && s.rank == r.rank ==> s == r
    ensures Coherent(t + multiset{r})
  {
    assert forall s :: s in t + multiset{r} <==> s in t || s == r;
  }

  /** Inserting a row that no row of its key outranks shows its value from then on. */
  lemma InsertOnTop<K(!new), V(!new)>(t: Table<K, V>, r: Row<K, V>, m: map<K, V>)
    requires Shows(t, m) && Coherent(t)
    requires forall s :: s in t && s.key == r.key ==> s.rank < r.rank || s == r
    ensures Shows(t + multiset{r}, m[r.key := r.value]) && Coherent(t + multiset{r})
  {
    var t' := t + multiset{r};
    InsertCoherent(t, r);
    assert Keys(t') == Keys(t) + {r.key} by { assert forall s :: s in t' <==> s in t || s == r; }
    forall w | Wins(t', w) ensures m[r.key := r.value][w.key] == w.value {
      if w != r { WinsBefore(t, r, w); }
    }
  }

  /** Inserting a row that some row of its key outranks or copies changes nothing. */
  lemma InsertBelow<K(!new), V(!new)>(t: Table<K, V>, r: Row<K, V>, m: map<K, V>, w: Row<K, V>)
    requires Shows(t, m) && Coherent(t)
    requires Wins(t, w) && w.key == r.key && (r.rank < w.rank || r == w)
    requires forall s :: s in t && s.key == r.key && s.rank == r.rank ==> s == r
    ensures Shows(t + multiset{r}, m) && Coherent(t + multiset{r})
  {
    var t' := t + multiset{r};
    assert forall s :: s in t' <==> s in t || s == r;
    assert Keys(t') == Keys(t);
    forall x | Wins(t', x) ensures m[x.key] == x.value {
      assert w in t';
      assert Wins(t, x);
    }
  }

  /** A deletion that never splits a key deletes exactly those keys from what readers see. */
  lemma DeleteKeys<K(!new), V(!new)>(
    t: Table<K, V>, t': Table<K, V>, gone: Row<K, V> -> bool, goneKey: K -> bool, m: map<K, V>)
    requires Shows(t, m) && Coherent(t) && Deleted(t, t', gone)
    requires forall r :: r in t ==> gone(r) == goneKey(r.key)
    ensures Shows(t', Without(m, goneKey)) && Coherent(t')
    ensures Hit(t, gone) == Matching(m, goneKey)
  {
    assert forall r :: r in t' <==> r in t && !gone(r);
    var m' := Without(m, goneKey);
    assert Keys(t') == m'.Keys;
    forall w | Wins(t', w) ensures m'[w.key] == w.value {
      assert Wins(t, w);
    }
  }

  /** `r` belongs to a stored key and outranks every row of it. */
  ghost predicate Tops<K(!new), V(!new)>(t: Table<K, V>, r: Row<K, V>) {
    r.key in Keys(t) && forall s :: s in t && s.key == r.key ==> s.rank < r.rank
  }

  /** `up` holds one new row for some stored keys, each ranked above every row of its key. */
  ghost predicate Raised<K(!new), V(!new)>(t: Table<K, V>, up: map<K, Row<K, V>>) {
    forall k {:trigger Tops(t, up[k])} :: k in up ==> up[k].key == k && Tops(t, up[k])
  }

  /** A batch of rewrites, each above its key's winner, replaces exactly those values. */
  lemma RaiseAll<K(!new), V(!new)>(t: Table<K, V>, up: map<K, Row<K, V>>, m: map<K, V>)
    requires Shows(t, m) && Coherent(t) && Raised(t, up)
    ensures Shows(t + multiset(up.Values), map k | k in m :: if k in up then up[k].value else m[k])
    ensures Coherent(t + multiset(up.Values))
  {
    var rows, t' := up.Values, t + multiset(up.Values);
    var m' := map k | k in m :: if k in up then up[k].value else m[k];
    forall s | s in rows ensures s.key in up && up[s.key] == s && Tops(t, s) {
      var k :| k in up && up[k] == s;
      assert Tops(t, up[k]);
    }
    assert forall s :: s in t' <==> s in t || s in rows;
    assert Keys(t') == Keys(t);
    forall w | Wins(t', w) ensures m'[w.key] == w.value {
      if w.key in up {
        assert up[w.key] in t';
        assert Tops(t, up[w.key]);
      } else {
        assert Wins(t, w);
      }
    }
  }
}
