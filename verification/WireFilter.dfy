/** The structured wire form of list filters: encode, decode, and the normal form a trip
    leaves behind. Doubles are reals. */
module WireFilter {
  import opened Wrappers

  /** A Go filter operand. `List` is []any; `Slice` any other slice or array; `Other` any
      type the wire does not know (a []byte included), by its printed form. */
  datatype Value =
    | Nil
    | Int(kind: string, n: int)
    | Float(x: real)
    | Str(s: string)
    | Bool(b: bool)
    | List(items: seq<Value>)
    | Slice(items: seq<Value>)
    | Other(text: string)

  datatype Cond = Cond(column: string, op: string, value: Value, or: seq<Cond>)

  datatype ListQuery = ListQuery(conds: seq<Cond>, orderBy: string, limit: int, offset: int)

  /** The oneof; `PUnknown` stands for a case this version does not know. */
  datatype PValue = PUnset | PStr(s: string) | PDouble(x: real) | PInt(n: int) | PBool(b: bool) | PList(items: seq<PValue>) | PUnknown

  datatype PCond = PCond(column: string, op: string, value: Option<PValue>, or: seq<PCond>)

  datatype PListQuery = PListQuery(conds: seq<PCond>, orderBy: string, limit: int, offset: int)

  const INT64 := 0x8000_0000_0000_0000
  const INT32 := 0x8000_0000

  /** Go integer conversions keep the low bits: the value moves by multiples of the word
      size into the signed range. */
  function Wrap(x: int, half: int): (r: int)
    requires 0 < half
    ensures -half <= r < half && (-half <= x < half ==> r == x)
    decreases if x >= half then x else if x < -half then -x else 0
  {
    if x >= half then Wrap(x - 2 * half, half) else if x < -half then Wrap(x + 2 * half, half) else x
  }

  /** The value moves by a whole number of words. */
  lemma {:induction false} WrapsByWords(x: int, half: int) returns (k: int)
    requires 0 < half
    ensures Wrap(x, half) == x + k * (2 * half)
    decreases if x >= half then x else if x < -half then -x else 0
  {
    if x >= half {
      var j := WrapsByWords(x - 2 * half, half);
      k := j - 1;
    } else if x < -half {
      var j := WrapsByWords(x + 2 * half, half);
      k := j + 1;
    } else {
      k := 0;
    }
  }

  // ---- values ----

  function ValueToProto(v: Value): PValue {
    match v
    case Nil => PStr("<nil>")
    case Int(_, n) => PInt(Wrap(n, INT64))
    case Float(x) => PDouble(x)
    case Str(s) => PStr(s)
    case Bool(b) => PBool(b)
    case List(items) => PList(ValuesToProto(items))
    case Slice(items) => PList(ValuesToProto(items))
    case Other(text) => PStr(text)
  }

  function ValuesToProto(vs: seq<Value>): seq<PValue> {
    if vs == [] then [] else ValuesToProto(vs[..|vs| - 1]) + [ValueToProto(vs[|vs| - 1])]
  }

  function ValueFromProto(p: PValue): Option<Value> {
    match p
    case PUnset => Some(Nil)
    case PStr(s) => Some(Str(s))
    case PDouble(x) => Some(Float(x))
    case PInt(n) => Some(Int("int64", n))
    case PBool(b) => Some(Bool(b))
    case PList(items) => if ValuesFromProto(items).Some? then Some(List(ValuesFromProto(items).value)) else None
    case PUnknown => None
  }

  function ValuesFromProto(ps: seq<PValue>): Option<seq<Value>> {
    if ps == [] then Some([]) else
      var rest, v := ValuesFromProto(ps[..|ps| - 1]), ValueFromProto(ps[|ps| - 1]);
      if rest.None? || v.None? then None else Some(rest.value + [v.value])
  }

  /** Integers as 64-bit values, slices as lists, unknown types as their printed form; a nil
      inside a list prints as well. */
  function NormalValue(v: Value): Value {
    match v
    case Nil => Str("<nil>")
    case Int(_, n) => Int("int64", Wrap(n, INT64))
    case List(items) => List(NormalValues(items))
    case Slice(items) => List(NormalValues(items))
    case Other(text) => Str(text)
    case _ => v
  }

  function NormalValues(vs: seq<Value>): seq<Value> {
    if vs == [] then [] else NormalValues(vs[..|vs| - 1]) + [NormalValue(vs[|vs| - 1])]
  }

  lemma {:induction false} ValueTrip(v: Value)
    ensures ValueFromProto(ValueToProto(v)) == Some(NormalValue(v))
    decreases v
  {
    match v {
      case List(items) => ValuesTrip(items);
      case Slice(items) => ValuesTrip(items);
      case _ =>
    }
  }

  lemma {:induction false} ValuesTrip(vs: seq<Value>)
    ensures ValuesFromProto(ValuesToProto(vs)) == Some(NormalValues(vs))
    decreases vs
  {
    if vs != [] {
      var n := |vs| - 1;
      ValuesTrip(vs[..n]);
      ValueTrip(vs[n]);
      var ps := ValuesToProto(vs);
      assert ps[..|ps| - 1] == ValuesToProto(vs[..n]);
    }
  }

  lemma {:induction false} ValueSettles(v: Value)
    ensures NormalValue(NormalValue(v)) == NormalValue(v)
    decreases v
  {
    match v {
      case List(items) => ValuesSettle(items);
      case Slice(items) => ValuesSettle(items);
      case _ =>
    }
  }

  lemma {:induction false} ValuesSettle(vs: seq<Value>)
    ensures NormalValues(NormalValues(vs)) == NormalValues(vs)
    decreases vs
  {
    if vs != [] {
      var n := |vs| - 1;
      ValuesSettle(vs[..n]);
      ValueSettles(vs[n]);
      var ns := NormalValues(vs);
      assert ns[..|ns| - 1] == NormalValues(vs[..n]);
    }
  }

  // ---- conditions ----

  function CondToProto(c: Cond): PCond {
    if c.or != [] then PCond(c.column, c.op, None, CondsToProto(c.or))
    else PCond(c.column, c.op, if c.value.Nil? then None else Some(ValueToProto(c.value)), [])
  }

  function CondsToProto(cs: seq<Cond>): seq<PCond> {
    if cs == [] then [] else CondsToProto(cs[..|cs| - 1]) + [CondToProto(cs[|cs| - 1])]
  }

  function CondFromProto(p: PCond): Option<Cond> {
    if p.or != [] then
      if CondsFromProto(p.or).Some? then Some(Cond("", "", Nil, CondsFromProto(p.or).value)) else None
    else
      var v := if p.value.None? then Some(Nil) else ValueFromProto(p.value.value);
      if v.Some? then Some(Cond(p.column, p.op, v.value, [])) else None
  }

  function CondsFromProto(ps: seq<PCond>): Option<seq<Cond>> {
    if ps == [] then Some([]) else
      var rest, c := CondsFromProto(ps[..|ps| - 1]), CondFromProto(ps[|ps| - 1]);
      if rest.None? || c.None? then None else Some(rest.value + [c.value])
  }

  /** A group keeps only its members; an absent operand stays absent. */
  function NormalCond(c: Cond): Cond {
    if c.or != [] then Cond("", "", Nil, NormalConds(c.or))
    else Cond(c.column, c.op, if c.value.Nil? then Nil else NormalValue(c.value), [])
  }

  function NormalConds(cs: seq<Cond>): (r: seq<Cond>)
    ensures |r| == |cs|
  {
    if cs == [] then [] else NormalConds(cs[..|cs| - 1]) + [NormalCond(cs[|cs| - 1])]
  }

  lemma {:induction false} CondTrip(c: Cond)
    ensures CondFromProto(CondToProto(c)) == Some(NormalCond(c))
    ensures NormalCond(NormalCond(c)) == NormalCond(c)
    decreases c
  {
    if c.or != [] {
      CondsTrip(c.or);
    } else {
      ValueTrip(c.value);
      ValueSettles(c.value);
    }
  }

  lemma {:induction false} CondsTrip(cs: seq<Cond>)
    ensures CondsFromProto(CondsToProto(cs)) == Some(NormalConds(cs))
    ensures NormalConds(NormalConds(cs)) == NormalConds(cs)
    ensures |CondsToProto(cs)| == |cs|
    decreases cs
  {
    if cs != [] {
      var n := |cs| - 1;
      CondsTrip(cs[..n]);
      CondTrip(cs[n]);
      var ps, ns := CondsToProto(cs), NormalConds(cs);
      assert ps[..|ps| - 1] == CondsToProto(cs[..n]);
      assert ns[..|ns| - 1] == NormalConds(cs[..n]);
    }
  }

  // ---- queries ----

  function ToProto(q: ListQuery): PListQuery {
    PListQuery(CondsToProto(q.conds), q.orderBy, Wrap(q.limit, INT32), Wrap(q.offset, INT32))
  }

  function FromProto(p: PListQuery): Option<ListQuery> {
    var cs := CondsFromProto(p.conds);
    if cs.Some? then Some(ListQuery(cs.value, p.orderBy, p.limit, p.offset)) else None
  }

  ghost predicate InInt32(x: int) {
    -INT32 <= x < INT32
  }

  /** A filter tree of any depth arrives in its normal form; limit and offset arrive exactly
      when they fit in 32 bits; a second trip changes nothing. */
  lemma QueryTrip(q: ListQuery)
    ensures FromProto(ToProto(q)).Some?
    ensures
      var q' := FromProto(ToProto(q)).value;
      && q'.conds == NormalConds(q.conds) && q'.orderBy == q.orderBy
      && (q'.limit == q.limit <==> InInt32(q.limit)) && (q'.offset == q.offset <==> InInt32(q.offset))
      && FromProto(ToProto(q')) == Some(q')
  {
    CondsTrip(q.conds);
    CondsTrip(NormalConds(q.conds));
  }

  // ---- what arrives unchanged ----

  /** Strings, booleans, doubles, int64 numbers, and []any lists of such. */
  ghost predicate Plain(v: Value) {
    match v
    case Str(_) => true
    case Bool(_) => true
    case Float(_) => true
    case Int(kind, n) => kind == "int64" && -INT64 <= n < INT64
    case List(items) => forall i :: 0 <= i < |items| ==> Plain(items[i])
    case _ => false
  }

  lemma {:induction false} PlainArrives(v: Value)
    ensures NormalValue(v) == v <==> Plain(v)
    decreases v
  {
    if v.List? { PlainsArrive(v.items); }
  }

  lemma SameSnoc<T>(a: seq<T>, x: T, b: seq<T>, y: T)
    ensures a + [x] == b + [y] <==> a == b && x == y
  {
    if a + [x] == b + [y] {
      assert a == (a + [x])[..|a|] && b == (b + [y])[..|b|];
      assert x == (a + [x])[|a|];
    }
  }

  lemma {:induction false} PlainsArrive(vs: seq<Value>)
    ensures NormalValues(vs) == vs <==> forall i :: 0 <= i < |vs| ==> Plain(vs[i])
    decreases vs
  {
    if vs != [] {
      var n := |vs| - 1;
      PlainsArrive(vs[..n]);
      PlainArrives(vs[n]);
      assert vs == vs[..n] + [vs[n]];
      SameSnoc(NormalValues(vs[..n]), NormalValue(vs[n]), vs[..n], vs[n]);
      assert (forall i :: 0 <= i < |vs| ==> Plain(vs[i])) <==> Plain(vs[n]) && forall i :: 0 <= i < n ==> Plain(vs[..n][i]);
    }
  }

  /** A condition with a plain operand or none, or a bare group of such. */
  ghost predicate PlainCond(c: Cond) {
    if c.or == [] then c.value.Nil? || Plain(c.value)
    else c.column == "" && c.op == "" && c.value.Nil? && forall i :: 0 <= i < |c.or| ==> PlainCond(c.or[i])
  }

  lemma {:induction false} PlainCondArrives(c: Cond)
    ensures NormalCond(c) == c <==> PlainCond(c)
    decreases c
  {
    if c.or != [] {
      PlainCondsArrive(c.or);
    } else {
      PlainArrives(c.value);
    }
  }

  lemma {:induction false} PlainCondsArrive(cs: seq<Cond>)
    ensures NormalConds(cs) == cs <==> forall i :: 0 <= i < |cs| ==> PlainCond(cs[i])
    decreases cs
  {
    if cs != [] {
      var n := |cs| - 1;
      PlainCondsArrive(cs[..n]);
      PlainCondArrives(cs[n]);
      assert cs == cs[..n] + [cs[n]];
      SameSnoc(NormalConds(cs[..n]), NormalCond(cs[n]), cs[..n], cs[n]);
      assert (forall i :: 0 <= i < |cs| ==> PlainCond(cs[i])) <==>
             PlainCond(cs[n]) && forall i :: 0 <= i < n ==> PlainCond(cs[..n][i]);
    }
  }

  /** A query arrives exactly as it was sent when and only when its conditions are plain and its
      limit and offset fit in 32 bits. */
  lemma ArrivesUnchangedIff(q: ListQuery)
    ensures FromProto(ToProto(q)) == Some(q) <==>
              && (forall i :: 0 <= i < |q.conds| ==> PlainCond(q.conds[i]))
              && -0x8000_0000 <= q.limit < 0x8000_0000 && -0x8000_0000 <= q.offset < 0x8000_0000
  {
    QueryTrip(q);
    PlainCondsArrive(q.conds);
  }
}
