/** The text of cache keys in both tiers, and exactly which entity names let two different
    rows share one. */
module CacheKeys {
  import opened CacheTiers

  // ---- decimals ----

  function Digit(d: nat): char
    requires d < 10
  {
    "0123456789"[d]
  }

  function Decimal(n: nat): (s: string)
    ensures s != "" && forall c :: c in s ==> '0' <= c <= '9'
  {
    if n < 10 then [Digit(n)] else Decimal(n / 10) + [Digit(n % 10)]
  }

  lemma DigitInjective(a: nat, b: nat)
    requires a < 10 && b < 10 && Digit(a) == Digit(b)
    ensures a == b
  {
  }

  lemma {:induction false} DecimalInjective(a: nat, b: nat)
    requires Decimal(a) == Decimal(b)
    ensures a == b
  {
    var s, t := Decimal(a), Decimal(b);
    assert s[|s| - 1] == Digit(a % 10) && t[|t| - 1] == Digit(b % 10);
    DigitInjective(a % 10, b % 10);
    if a >= 10 {
      assert s[..|s| - 1] == Decimal(a / 10);
      if b >= 10 {
        assert t[..|t| - 1] == Decimal(b / 10);
        DecimalInjective(a / 10, b / 10);
      }
    }
  }

  // ---- keys ----

  /** `a`, the separator, and the rest. */
  function Cut(a: string, sep: char, rest: string): string {
    a + [sep] + rest
  }

  lemma CutLength(a: string, b: string, sep: char, x: string, y: string)
    requires sep !in b && Cut(a, sep, x) == Cut(b, sep, y)
    ensures |b| <= |a|
  {
    var s := Cut(a, sep, x);
    assert s[|a|] == sep;
    assert forall k :: 0 <= k < |b| ==> s[k] == b[k] && b[k] in b;
  }

  /** A separator that does not occur in the first part shows where it ends. */
  lemma CutInjective(a: string, b: string, sep: char, x: string, y: string)
    requires sep !in a && sep !in b && Cut(a, sep, x) == Cut(b, sep, y)
    ensures a == b && x == y
  {
    CutLength(a, b, sep, x, y);
    CutLength(b, a, sep, y, x);
    var s := Cut(a, sep, x);
    assert s[..|a|] == a && s[..|b|] == b && s[|a| + 1..] == x && s[|b| + 1..] == y;
  }

  lemma CutAppend(a: string, sep: char, x: string, rest: string)
    ensures Cut(a, sep, x + rest) == Cut(a, sep, x) + rest
  {
  }

  /** Two ways to cut one string at a separator that `a` does not contain: the same cut, or
      the other one comes later. */
  lemma Peel(a: string, rest: string, p: string, r: string, sep: char) returns (p': string)
    requires sep !in a && Cut(a, sep, rest) == Cut(p, sep, r)
    ensures (p == a && r == rest) || (p == Cut(a, sep, p') && Cut(p', sep, r) == rest)
  {
    CutLength(p, a, sep, r, rest);
    var s := Cut(a, sep, rest);
    p' := "";
    if |p| == |a| {
      assert s[..|a|] == a && s[..|p|] == p && s[|a| + 1..] == rest && s[|p| + 1..] == r;
    } else {
      p' := p[|a| + 1..];
      assert s[..|p|] == p && s[..|a|] == a && s[|a|] == sep;
      assert p == a + [sep] + p';
      assert rest == s[|a| + 1..];
    }
  }

  /** A string read as two cuts, the second one later: the first part with its separator is a
      prefix of the second. */
  lemma LaterCut(a: string, x: string, b: string, y: string, sep: char) returns (p: string)
    requires |a| < |b| && Cut(a, sep, x) == Cut(b, sep, y)
    ensures b == Cut(a, sep, p) && x == Cut(p, sep, y)
  {
    var s := Cut(a, sep, x);
    p := b[|a| + 1..];
    assert s[..|b|] == b && s[..|a|] == a && s[|a|] == sep;
    assert b == a + [sep] + p;
    assert x == s[|a| + 1..];
  }

  predicate TenantChar(c: char) {
    'a' <= c <= 'z' || 'A' <= c <= 'Z' || '0' <= c <= '9' || c == '_' || c == '-'
  }

  /** Tenant ids are checked; entity names are only checked to be non-empty. */
  predicate ValidTenant(t: string) {
    1 <= |t| <= 64 && forall i :: 0 <= i < |t| ==> TenantChar(t[i])
  }

  /** 1 to 64 ASCII letters, digits, underscores and dashes, by their codes. */
  lemma TenantMeans(t: string)
    ensures ValidTenant(t) <==>
              1 <= |t| <= 64 && forall i :: 0 <= i < |t| ==>
                var n := t[i] as int; 48 <= n <= 57 || 65 <= n <= 90 || 97 <= n <= 122 || n == 45 || n == 95
  {
  }

  lemma TenantsArePlain(t: string)
    requires ValidTenant(t)
    ensures ':' !in t && '|' !in t
  {
  }

  lemma GenText(a: nat, b: nat)
    ensures ':' !in "g" + Decimal(a) && '|' !in "g" + Decimal(a)
    ensures "g" + Decimal(a) == "g" + Decimal(b) ==> a == b
  {
    var s, t := "g" + Decimal(a), "g" + Decimal(b);
    forall c | c in s ensures c != ':' && c != '|' { assert c == 'g' || c in Decimal(a); }
    assert s[1..] == Decimal(a) && t[1..] == Decimal(b);
    if s == t { DecimalInjective(a, b); }
  }

  // ---- the shared tier ----

  /** "row:v1:g{gen}:t:{tenant}:{id}", a shared key after the entity. */
  function Tail(gen: nat, tenant: string, id: string): string {
    Cut("row", ':', Cut("v1", ':', Cut("g" + Decimal(gen), ':', Cut("t", ':', Cut(tenant, ':', id)))))
  }

  /** "fabriq:c:{entity}:row:v1:g{gen}:t:{tenant}:{id}", the shared tier's row key. */
  function SharedKey(r: Ref, gen: nat): string {
    Cut("fabriq", ':', Cut("c", ':', Cut(r.entity, ':', Tail(gen, r.tenant, r.id))))
  }

  /** "{entity}:row:v1:g{gen}:t", how every shared key of the entity goes on. */
  function Stem(entity: string, gen: nat): string {
    Cut(entity, ':', Cut("row", ':', Cut("v1", ':', Cut("g" + Decimal(gen), ':', "t"))))
  }

  /** The longer name spells out the beginning of a key of the shorter one: up to the tenant
      part, up to a tenant, or beyond. */
  ghost predicate Continues(e: string, longer: string) {
    exists g: nat ::
      || longer == Stem(e, g)
      || (exists t :: ValidTenant(t) && longer == Cut(Stem(e, g), ':', t))
      || (exists t, b :: ValidTenant(t) && longer == Cut(Stem(e, g), ':', Cut(t, ':', b)))
  }

  /** Some two different rows of these entities, or one row at two generations, share a key. */
  ghost predicate SharedKeysCollide(e: string, f: string) {
    exists q: Ref, g: nat, r: Ref, h: nat ::
      && q.entity == e && r.entity == f && ValidTenant(q.tenant) && ValidTenant(r.tenant)
      && (q != r || g != h) && SharedKey(q, g) == SharedKey(r, h)
  }

  /** Equal keys are equal from the entity on. */
  lemma StripShared(q: Ref, g: nat, r: Ref, h: nat)
    requires SharedKey(q, g) == SharedKey(r, h)
    ensures Cut(q.entity, ':', Tail(g, q.tenant, q.id)) == Cut(r.entity, ':', Tail(h, r.tenant, r.id))
  {
    var x, y := Cut(q.entity, ':', Tail(g, q.tenant, q.id)), Cut(r.entity, ':', Tail(h, r.tenant, r.id));
    CutInjective("fabriq", "fabriq", ':', Cut("c", ':', x), Cut("c", ':', y));
    CutInjective("c", "c", ':', x, y);
  }

  lemma TailInjective(g: nat, t: string, i: string, h: nat, u: string, j: string)
    requires ValidTenant(t) && ValidTenant(u) && Tail(g, t, i) == Tail(h, u, j)
    ensures g == h && t == u && i == j
  {
    GenText(g, h);
    GenText(h, g);
    TenantsArePlain(t);
    TenantsArePlain(u);
    var x1, y1 := Cut(t, ':', i), Cut(u, ':', j);
    var x2, y2 := Cut("t", ':', x1), Cut("t", ':', y1);
    var x3, y3 := Cut("g" + Decimal(g), ':', x2), Cut("g" + Decimal(h), ':', y2);
    CutInjective("row", "row", ':', Cut("v1", ':', x3), Cut("v1", ':', y3));
    CutInjective("v1", "v1", ':', x3, y3);
    CutInjective("g" + Decimal(g), "g" + Decimal(h), ':', x2, y2);
    CutInjective("t", "t", ':', x1, y1);
    CutInjective(t, u, ':', i, j);
  }

  /** Rows of one entity never share a key. */
  lemma OneEntityKeysDiffer(q: Ref, g: nat, r: Ref, h: nat)
    requires ValidTenant(q.tenant) && ValidTenant(r.tenant) && |q.entity| == |r.entity|
    requires SharedKey(q, g) == SharedKey(r, h)
    ensures q == r && g == h
  {
    StripShared(q, g, r, h);
    var x, y := Tail(g, q.tenant, q.id), Tail(h, r.tenant, r.id);
    var s := Cut(q.entity, ':', x);
    assert s[..|q.entity|] == q.entity && s[..|r.entity|] == r.entity;
    assert s[|q.entity| + 1..] == x && s[|r.entity| + 1..] == y;
    TailInjective(g, q.tenant, q.id, h, r.tenant, r.id);
  }

  /** Where a tail can be cut so that another tail follows: only after the tenant part. */
  lemma TailWithin(e: string, g: nat, t: string, i: string, p: string, h: nat, u: string, j: string)
    requires ValidTenant(t) && Tail(g, t, i) == Cut(p, ':', Tail(h, u, j))
    ensures Continues(e, Cut(e, ':', p))
  {
    GenText(g, g);
    TenantsArePlain(t);
    var r := Tail(h, u, j);
    assert r[0] == 'r';
    var gen := "g" + Decimal(g);
    var x1 := Cut("t", ':', Cut(t, ':', i));
    var x2 := Cut(gen, ':', x1);
    assert Cut("v1", ':', x2)[0] == 'v' && x2[0] == 'g' && x1[0] == 't';
    var p1 := Peel("row", Cut("v1", ':', x2), p, r, ':');
    var p2 := Peel("v1", x2, p1, r, ':');
    var p3 := Peel(gen, x1, p2, r, ':');
    var p4 := Peel("t", Cut(t, ':', i), p3, r, ':');
    assert p == Cut("row", ':', Cut("v1", ':', Cut(gen, ':', p3)));
    if p3 == "t" {
      assert Cut(e, ':', p) == Stem(e, g);
    } else {
      var p5 := Peel(t, i, p4, r, ':');
      StemAppend(e, g, p4);
      assert Cut(e, ':', p) == Cut(Stem(e, g), ':', p4);
    }
  }

  lemma StemAppend(e: string, g: nat, p: string)
    ensures Cut(e, ':', Cut("row", ':', Cut("v1", ':', Cut("g" + Decimal(g), ':', Cut("t", ':', p))))) == Cut(Stem(e, g), ':', p)
  {
    var rest := [':'] + p;
    var gen := "g" + Decimal(g);
    assert Cut("t", ':', p) == "t" + rest;
    CutAppend(gen, ':', "t", rest);
    CutAppend("v1", ':', Cut(gen, ':', "t"), rest);
    CutAppend("row", ':', Cut("v1", ':', Cut(gen, ':', "t")), rest);
    CutAppend(e, ':', Cut("row", ':', Cut("v1", ':', Cut(gen, ':', "t"))), rest);
  }

  lemma CutAssoc(a: string, sep: char, b: string, c: string)
    ensures Cut(Cut(a, sep, b), sep, c) == Cut(a, sep, Cut(b, sep, c))
  {
  }

  /** A row of `e` whose tenant and id spell the rest of a key of the longer name. */
  lemma CollideAt(e: string, f: string, g: nat, t: string, i: string)
    requires ValidTenant(t) && |e| < |f|
    requires Cut(f, ':', Tail(0, "x", "")) == Cut(Stem(e, g), ':', Cut(t, ':', i))
    ensures SharedKeysCollide(e, f)
  {
    var q, r := Ref(t, e, i), Ref("x", f, "");
    StemAppend(e, g, Cut(t, ':', i));
    assert ValidTenant("x");
    assert SharedKey(q, g) == SharedKey(r, 0);
  }

  lemma ContinuedNamesCollide(e: string, f: string)
    requires Continues(e, f)
    ensures SharedKeysCollide(e, f)
  {
    var g: nat :|
      || f == Stem(e, g)
      || (exists t :: ValidTenant(t) && f == Cut(Stem(e, g), ':', t))
      || (exists t, b :: ValidTenant(t) && f == Cut(Stem(e, g), ':', Cut(t, ':', b)));
    var tail := Tail(0, "x", "");
    assert |e| < |Stem(e, g)| <= |f|;
    if f == Stem(e, g) {
      assert ValidTenant("row");
      CollideAt(e, f, g, "row", Cut("v1", ':', Cut("g" + Decimal(0), ':', Cut("t", ':', Cut("x", ':', "")))));
    } else if t :| ValidTenant(t) && f == Cut(Stem(e, g), ':', t) {
      CutAssoc(Stem(e, g), ':', t, tail);
      CollideAt(e, f, g, t, tail);
    } else {
      var t, b :| ValidTenant(t) && f == Cut(Stem(e, g), ':', Cut(t, ':', b));
      CutAssoc(Stem(e, g), ':', Cut(t, ':', b), tail);
      CutAssoc(t, ':', b, tail);
      CollideAt(e, f, g, t, Cut(b, ':', tail));
    }
  }

  /** Exactly when shared row keys collide: one entity's name continues the other's as a key
      of it goes on. Rows of one entity never collide. */
  lemma SharedKeysCollideIff(e: string, f: string)
    ensures SharedKeysCollide(e, f) <==> Continues(e, f) || Continues(f, e)
  {
    if SharedKeysCollide(e, f) {
      var q: Ref, g: nat, r: Ref, h: nat :|
        && q.entity == e && r.entity == f && ValidTenant(q.tenant) && ValidTenant(r.tenant)
        && (q != r || g != h) && SharedKey(q, g) == SharedKey(r, h);
      CollisionContinues(q, g, r, h);
    }
    if Continues(e, f) { ContinuedNamesCollide(e, f); }
    if Continues(f, e) {
      ContinuedNamesCollide(f, e);
      var q: Ref, g: nat, r: Ref, h: nat :|
        && q.entity == f && r.entity == e && ValidTenant(q.tenant) && ValidTenant(r.tenant)
        && (q != r || g != h) && SharedKey(q, g) == SharedKey(r, h);
      assert SharedKey(r, h) == SharedKey(q, g);
    }
  }

  lemma CollisionContinues(q: Ref, g: nat, r: Ref, h: nat)
    requires ValidTenant(q.tenant) && ValidTenant(r.tenant) && SharedKey(q, g) == SharedKey(r, h)
    ensures (q == r && g == h) || Continues(q.entity, r.entity) || Continues(r.entity, q.entity)
  {
    StripShared(q, g, r, h);
    var x, y := Tail(g, q.tenant, q.id), Tail(h, r.tenant, r.id);
    if |q.entity| == |r.entity| {
      OneEntityKeysDiffer(q, g, r, h);
    } else if |q.entity| < |r.entity| {
      var p := LaterCut(q.entity, x, r.entity, y, ':');
      TailWithin(q.entity, g, q.tenant, q.id, p, h, r.tenant, r.id);
    } else {
      var p := LaterCut(r.entity, y, q.entity, x, ':');
      TailWithin(r.entity, h, r.tenant, r.id, p, g, q.tenant, q.id);
    }
  }

  // ---- the local tier ----

  /** "v1|g{gen}|t:{tenant}|{id}", a local key after the keyspace name. */
  function LocalTail(gen: nat, tenant: string, id: string): string {
    Cut("v1", '|', Cut("g" + Decimal(gen), '|', Cut(TenantPart(tenant), '|', id)))
  }

  /** "{entity}:row|v1|g{gen}|t:{tenant}|{id}", the local tier's row key. */
  function LocalKey(r: Ref, gen: nat): string {
    Cut(RowName(r.entity), '|', LocalTail(gen, r.tenant, r.id))
  }

  function LocalStem(entity: string, gen: nat): string {
    Cut(RowName(entity), '|', Cut("v1", '|', "g" + Decimal(gen)))
  }

  /** The longer name goes on as a local key of the shorter one, up to "t", which the suffix
      of the keyspace name turns into tenant "row", or beyond a tenant. */
  ghost predicate LocalContinues(e: string, longer: string) {
    exists g: nat ::
      || longer == Cut(LocalStem(e, g), '|', "t")
      || (exists t, b :: ValidTenant(t) && longer == Cut(LocalStem(e, g), '|', Cut(TenantPart(t), '|', b)))
  }

  ghost predicate LocalKeysCollide(e: string, f: string) {
    exists q: Ref, g: nat, r: Ref, h: nat ::
      && q.entity == e && r.entity == f && ValidTenant(q.tenant) && ValidTenant(r.tenant)
      && (q != r || g != h) && LocalKey(q, g) == LocalKey(r, h)
  }

  lemma PartPlain(t: string)
    requires ValidTenant(t)
    ensures '|' !in TenantPart(t)
  {
    TenantsArePlain(t);
  }

  lemma LocalTailInjective(g: nat, t: string, i: string, h: nat, u: string, j: string)
    requires ValidTenant(t) && ValidTenant(u) && LocalTail(g, t, i) == LocalTail(h, u, j)
    ensures g == h && t == u && i == j
  {
    GenText(g, h);
    GenText(h, g);
    PartPlain(t);
    PartPlain(u);
    var x1, y1 := Cut(TenantPart(t), '|', i), Cut(TenantPart(u), '|', j);
    var x2, y2 := Cut("g" + Decimal(g), '|', x1), Cut("g" + Decimal(h), '|', y1);
    CutInjective("v1", "v1", '|', x2, y2);
    CutInjective("g" + Decimal(g), "g" + Decimal(h), '|', x1, y1);
    CutInjective(TenantPart(t), TenantPart(u), '|', i, j);
    KeysInjective(Ref(t, "", ""), Ref(u, "", ""));
  }

  lemma LocalStemAppend(e: string, g: nat, p: string)
    ensures Cut(RowName(e), '|', Cut("v1", '|', Cut("g" + Decimal(g), '|', p))) == Cut(LocalStem(e, g), '|', p)
  {
    var rest := ['|'] + p;
    CutAppend("v1", '|', "g" + Decimal(g), rest);
    CutAppend(RowName(e), '|', Cut("v1", '|', "g" + Decimal(g)), rest);
  }

  /** A name that ends in ":row" ends in it after every cut. */
  lemma EndsInRow(x: string, f: string, p: string)
    requires RowName(f) == Cut(x, '|', p)
    ensures |p| >= 4 && p[|p| - 4..] == ":row" && f == Cut(x, '|', p[..|p| - 4])
  {
    var s := RowName(f);
    var n := |s|;
    assert s[n - 4] == ':' && s[n - 3] == 'r' && s[n - 2] == 'o' && s[n - 1] == 'w';
    assert s[|x|] == '|';
    assert p == s[|x| + 1..];
    assert f == s[..n - 4];
  }

  lemma LocalTailWithin(e: string, f: string, g: nat, t: string, i: string, p: string, h: nat, u: string, j: string)
    requires ValidTenant(t) && LocalTail(g, t, i) == Cut(p, '|', LocalTail(h, u, j))
    requires RowName(f) == Cut(RowName(e), '|', p)
    ensures LocalContinues(e, f)
  {
    GenText(g, g);
    PartPlain(t);
    var r, gen, part := LocalTail(h, u, j), "g" + Decimal(g), TenantPart(t);
    assert r[0] == 'v';
    var x1 := Cut(part, '|', i);
    var x2 := Cut(gen, '|', x1);
    assert x2[0] == 'g' && x1[0] == 't';
    var p1 := Peel("v1", x2, p, r, '|');
    var p2 := Peel(gen, x1, p1, r, '|');
    assert p == Cut("v1", '|', Cut(gen, '|', p2));
    LocalStemAppend(e, g, p2);
    EndsInRow(LocalStem(e, g), f, p2);
    var p3 := Peel(part, i, p2, r, '|');
    if p2 == part {
      TenantIsRow(t);
    } else {
      EndsInRow(part, p2[..|p2| - 4], p3);
    }
  }

  /** "t:{tenant}" ends in ":row" only for the tenant "row". */
  lemma TenantIsRow(t: string)
    requires ValidTenant(t)
    ensures |TenantPart(t)| >= 4 && TenantPart(t)[|TenantPart(t)| - 4..] == ":row" ==> TenantPart(t)[..|TenantPart(t)| - 4] == "t"
  {
    TenantsArePlain(t);
    var s := TenantPart(t);
    assert forall k :: 2 <= k < |s| ==> s[k] == t[k - 2] && t[k - 2] in t;
    if |s| >= 4 && s[|s| - 4..] == ":row" { assert s[|s| - 4] == s[|s| - 4..][0] == ':'; }
  }

  lemma LocalCollisionContinues(q: Ref, g: nat, r: Ref, h: nat)
    requires ValidTenant(q.tenant) && ValidTenant(r.tenant) && LocalKey(q, g) == LocalKey(r, h)
    ensures (q == r && g == h) || LocalContinues(q.entity, r.entity) || LocalContinues(r.entity, q.entity)
  {
    var a, b := RowName(q.entity), RowName(r.entity);
    var x, y := LocalTail(g, q.tenant, q.id), LocalTail(h, r.tenant, r.id);
    if |a| == |b| {
      var s := LocalKey(q, g);
      assert s[..|a|] == a && s[..|b|] == b && s[|a| + 1..] == x && s[|b| + 1..] == y;
      LocalTailInjective(g, q.tenant, q.id, h, r.tenant, r.id);
      KeysInjective(q, r);
    } else if |a| < |b| {
      var p := LaterCut(a, x, b, y, '|');
      LocalTailWithin(q.entity, r.entity, g, q.tenant, q.id, p, h, r.tenant, r.id);
    } else {
      var p := LaterCut(b, y, a, x, '|');
      LocalTailWithin(r.entity, q.entity, h, r.tenant, r.id, p, g, q.tenant, q.id);
    }
  }

  lemma LocallyCollideAt(e: string, f: string, g: nat, t: string, i: string)
    requires ValidTenant(t) && |e| < |f|
    requires Cut(RowName(f), '|', LocalTail(0, "x", "")) == Cut(LocalStem(e, g), '|', Cut(TenantPart(t), '|', i))
    ensures LocalKeysCollide(e, f)
  {
    var q, r := Ref(t, e, i), Ref("x", f, "");
    LocalStemAppend(e, g, Cut(TenantPart(t), '|', i));
    assert ValidTenant("x");
    assert LocalKey(q, g) == LocalKey(r, 0);
  }

  lemma RowNameCut(x: string, p: string)
    ensures RowName(Cut(x, '|', p)) == Cut(x, '|', p + ":row")
  {
  }

  lemma LocallyContinuedNamesCollide(e: string, f: string)
    requires LocalContinues(e, f)
    ensures LocalKeysCollide(e, f)
  {
    var g: nat :|
      || f == Cut(LocalStem(e, g), '|', "t")
      || (exists t, b :: ValidTenant(t) && f == Cut(LocalStem(e, g), '|', Cut(TenantPart(t), '|', b)));
    var tail := LocalTail(0, "x", "");
    assert |e| < |LocalStem(e, g)| <= |f|;
    if f == Cut(LocalStem(e, g), '|', "t") {
      RowNameCut(LocalStem(e, g), "t");
      assert "t" + ":row" == TenantPart("row") && ValidTenant("row");
      CutAssoc(LocalStem(e, g), '|', TenantPart("row"), tail);
      LocallyCollideAt(e, f, g, "row", tail);
    } else {
      var t, b :| ValidTenant(t) && f == Cut(LocalStem(e, g), '|', Cut(TenantPart(t), '|', b));
      RowNameCut(LocalStem(e, g), Cut(TenantPart(t), '|', b));
      RowNameCut(TenantPart(t), b);
      CutAssoc(LocalStem(e, g), '|', Cut(TenantPart(t), '|', b + ":row"), tail);
      CutAssoc(TenantPart(t), '|', b + ":row", tail);
      LocallyCollideAt(e, f, g, t, Cut(b + ":row", '|', tail));
    }
  }

  /** Exactly when local row keys collide. */
  lemma LocalKeysCollideIff(e: string, f: string)
    ensures LocalKeysCollide(e, f) <==> LocalContinues(e, f) || LocalContinues(f, e)
  {
    if LocalKeysCollide(e, f) {
      var q: Ref, g: nat, r: Ref, h: nat :|
        && q.entity == e && r.entity == f && ValidTenant(q.tenant) && ValidTenant(r.tenant)
        && (q != r || g != h) && LocalKey(q, g) == LocalKey(r, h);
      LocalCollisionContinues(q, g, r, h);
    }
    if LocalContinues(e, f) { LocallyContinuedNamesCollide(e, f); }
    if LocalContinues(f, e) {
      LocallyContinuedNamesCollide(f, e);
      var q: Ref, g: nat, r: Ref, h: nat :|
        && q.entity == f && r.entity == e && ValidTenant(q.tenant) && ValidTenant(r.tenant)
        && (q != r || g != h) && LocalKey(q, g) == LocalKey(r, h);
      assert LocalKey(r, h) == LocalKey(q, g);
    }
  }

  // ---- key text and records ----

  /** No name of the set goes on as a key of another. */
  ghost predicate KeysApart(names: set<string>) {
    forall e, f :: e in names && f in names ==> !Continues(e, f) && !LocalContinues(e, f)
  }

  /** In a registry with such names the key text of either tier determines row and generation,
      so a tier keyed by text behaves like one keyed by records. */
  lemma TextStandsForRecords(names: set<string>, q: Ref, g: nat, r: Ref, h: nat)
    requires KeysApart(names) && q.entity in names && r.entity in names && ValidTenant(q.tenant) && ValidTenant(r.tenant)
    ensures SharedKey(q, g) == SharedKey(r, h) ==> q == r && g == h
    ensures LocalKey(q, g) == LocalKey(r, h) ==> q == r && g == h
  {
    if SharedKey(q, g) == SharedKey(r, h) { CollisionContinues(q, g, r, h); }
    if LocalKey(q, g) == LocalKey(r, h) { LocalCollisionContinues(q, g, r, h); }
  }
}
