/**
 * What the JSON-safety gate protects: a value a schema accepts must survive
 * `parse(JSON.parse(JSON.stringify(value)))`. Schemas may refer to each other through names, cyclically.
 */
module JsonRoundTrip {
  import opened Options

  // ----- values, and the wire

  /** In-process values. A property that is missing and one that is `undefined` are not told apart. */
  datatype Value =
    | Undefined | Null | Bool(b: bool) | Num(n: real) | Infinite(negative: bool) | NaN | Str(s: string)
    | BigInt(i: int) | Date(ms: int) | MapObject | SetObject | Symbol | Function | Promise | Instance
    | Arr(elems: seq<Value>) | Obj(props: seq<Prop>)

  datatype Prop = Prop(name: string, value: Value)

  /** JSON texts up to spelling: section 4 of RFC 8259 for objects, section 6 for (finite) numbers. */
  datatype Json = JNull | JBool(b: bool) | JNum(n: real) | JStr(s: string) | JArr(elems: seq<Json>)
                | JObj(members: seq<Member>)

  datatype Member = Member(name: string, value: Json)

  /** Date printing and reading, of which only the round trip of valid instants is used. */
  datatype Dates = Dates(iso: int -> string, read: Value -> Option<int>)

  const MAX_TIME: int := 8640000000000000

  ghost predicate GoodDates(d: Dates) {
    && (forall ms :: -MAX_TIME <= ms <= MAX_TIME ==> d.read(Str(d.iso(ms))) == Some(ms))
    && (forall ms :: -MAX_TIME <= ms <= MAX_TIME ==> d.read(Date(ms)) == Some(ms))
    && (forall v :: d.read(v).Some? ==> -MAX_TIME <= d.read(v).value <= MAX_TIME)
  }

  datatype Wire = Throws | Omitted | Text(j: Json)

  /** `JSON.stringify`, section 25.5.2 of ECMA-262. */
  function Stringify(d: Dates, v: Value): Wire
    decreases v, 1
  {
    match v
    case Undefined | Symbol | Function => Omitted
    case Null | Infinite(_) | NaN => Text(JNull)
    case Bool(b) => Text(JBool(b))
    case Num(n) => Text(JNum(n))
    case Str(s) => Text(JStr(s))
    case BigInt(_) => Throws
    case Date(ms) => Text(if -MAX_TIME <= ms <= MAX_TIME then JStr(d.iso(ms)) else JNull)
    case MapObject | SetObject | Promise | Instance => Text(JObj([]))
    case Arr(elems) =>
      var js := StringifyAll(d, elems);
      if js.None? then Throws else Text(JArr(js.value))
    case Obj(props) =>
      var ms := StringifyProps(d, props);
      if ms.None? then Throws else Text(JObj(ms.value))
  }

  /** Inside arrays an omitted value becomes null. */
  function StringifyAll(d: Dates, vs: seq<Value>): Option<seq<Json>>
    decreases vs, 0
  {
    if vs == [] then Some([])
    else
      var w, rest := Stringify(d, vs[0]), StringifyAll(d, vs[1..]);
      if w.Throws? || rest.None? then None
      else Some([if w.Text? then w.j else JNull] + rest.value)
  }

  /** Inside objects an omitted value takes its key with it. */
  function StringifyProps(d: Dates, props: seq<Prop>): Option<seq<Member>>
    decreases props, 0
  {
    if props == [] then Some([])
    else
      var w, rest := Stringify(d, props[0].value), StringifyProps(d, props[1..]);
      if w.Throws? || rest.None? then None
      else Some((if w.Text? then [Member(props[0].name, w.j)] else []) + rest.value)
  }

  /** `JSON.parse` */
  function FromJson(j: Json): Value
    decreases j, 1
  {
    match j
    case JNull => Null
    case JBool(b) => Bool(b)
    case JNum(n) => Num(n)
    case JStr(s) => Str(s)
    case JArr(elems) => Arr(FromAll(elems))
    case JObj(members) => Obj(FromMembers(members))
  }

  function FromAll(js: seq<Json>): (vs: seq<Value>)
    ensures |vs| == |js|
    decreases js, 0
  {
    if js == [] then [] else [FromJson(js[0])] + FromAll(js[1..])
  }

  function FromMembers(ms: seq<Member>): (ps: seq<Prop>)
    ensures |ps| == |ms|
    decreases ms, 0
  {
    if ms == [] then [] else [Prop(ms[0].name, FromJson(ms[0].value))] + FromMembers(ms[1..])
  }

  // ----- schemas

  /** The constructs the gate bans by method name. */
  datatype Banned = ZDate | ZBigInt | ZMap | ZSet | ZNan | ZSymbol | ZFunction | ZPromise | ZUndefined | ZVoid
                  | ZInstance

  datatype Schema =
    | ZString | ZBoolean | ZNumber | ZFiniteNumber | ZCoerceDate | ZUnknown
    | ZBanned(kind: Banned)
    | ZNullable(inner: Schema) | ZOptional(inner: Schema)
    | ZArray(inner: Schema)
    | ZRecord(inner: Schema)           // string keys
    | ZRecordByNumber(inner: Schema)   // z.record(z.number(), V)
    | ZObject(fields: seq<Field>)      // strict
    | ZRef(name: string)

  datatype Field = Field(name: string, schema: Schema)

  type Env = map<string, Schema>

  predicate IsKind(k: Banned, v: Value) {
    match k
    case ZDate => v.Date? && -MAX_TIME <= v.ms <= MAX_TIME
    case ZBigInt => v.BigInt?
    case ZMap => v.MapObject?
    case ZSet => v.SetObject?
    case ZNan => v.NaN?
    case ZSymbol => v.Symbol?
    case ZFunction => v.Function?
    case ZPromise => v.Promise?
    case ZUndefined | ZVoid => v.Undefined?
    case ZInstance => v.Instance?
  }

  function Lookup(props: seq<Prop>, name: string): Value {
    if props == [] then Undefined
    else if props[0].name == name then props[0].value
    else Lookup(props[1..], name)
  }

  /** A strict object takes no property its schema does not name. */
  predicate NamedIn(props: seq<Prop>, fields: seq<Field>) {
    forall p :: p in props ==> exists f :: f in fields && f.name == p.name
  }

  /** `schema.parse(v)`: the parsed value, or None for a rejection. `depth` bounds the chain of references. */
  function Parse(d: Dates, env: Env, s: Schema, v: Value, depth: nat): Option<Value>
    decreases depth, s, 1
  {
    match s
    case ZString => if v.Str? then Some(v) else None
    case ZBoolean => if v.Bool? then Some(v) else None
    case ZNumber => if v.Num? || v.Infinite? then Some(v) else None
    case ZFiniteNumber => if v.Num? then Some(v) else None
    case ZCoerceDate => var ms := d.read(v); if ms.Some? then Some(Date(ms.value)) else None
    case ZUnknown => Some(v)
    case ZBanned(k) => if IsKind(k, v) then Some(v) else None
    case ZNullable(inner) => if v.Null? then Some(v) else Parse(d, env, inner, v, depth)
    case ZOptional(inner) => if v.Undefined? then Some(v) else Parse(d, env, inner, v, depth)
    case ZArray(inner) =>
      if !v.Arr? then None
      else
        var r := ParseAll(d, env, inner, v.elems, depth);
        if r.None? then None else Some(Arr(r.value))
    case ZRecord(inner) =>
      if !v.Obj? then None
      else
        var r := ParseProps(d, env, inner, v.props, depth);
        if r.None? then None else Some(Obj(r.value))
    case ZRecordByNumber(_) => if v == Obj([]) then Some(v) else None
    case ZObject(fields) =>
      if !v.Obj? || !NamedIn(v.props, fields) then None
      else
        var r := ParseFields(d, env, fields, v.props, depth);
        if r.None? then None else Some(Obj(r.value))
    case ZRef(name) =>
      if depth == 0 || name !in env then None else Parse(d, env, env[name], v, depth - 1)
  }

  function ParseAll(d: Dates, env: Env, s: Schema, vs: seq<Value>, depth: nat): Option<seq<Value>>
    decreases depth, s, 2, |vs|
  {
    if vs == [] then Some([])
    else
      var w, rest := Parse(d, env, s, vs[0], depth), ParseAll(d, env, s, vs[1..], depth);
      if w.None? || rest.None? then None else Some([w.value] + rest.value)
  }

  function ParseProps(d: Dates, env: Env, s: Schema, ps: seq<Prop>, depth: nat): Option<seq<Prop>>
    decreases depth, s, 2, |ps|
  {
    if ps == [] then Some([])
    else if ps[0].value.Undefined? then ParseProps(d, env, s, ps[1..], depth)
    else
      var w, rest := Parse(d, env, s, ps[0].value, depth), ParseProps(d, env, s, ps[1..], depth);
      if w.None? || rest.None? then None else Some([Prop(ps[0].name, w.value)] + rest.value)
  }

  /** Fields are read in the schema's order; an absent field parses as undefined and stays absent. */
  function ParseFields(d: Dates, env: Env, fields: seq<Field>, props: seq<Prop>, depth: nat): Option<seq<Prop>>
    decreases depth, fields, 0
  {
    if fields == [] then Some([])
    else
      var w := Parse(d, env, fields[0].schema, Lookup(props, fields[0].name), depth);
      var rest := ParseFields(d, env, fields[1..], props, depth);
      if w.None? || rest.None? then None
      else if w.value.Undefined? then rest
      else Some([Prop(fields[0].name, w.value)] + rest.value)
  }

  // ----- the verdicts

  /** No construct the gate reports, in the schema's own tree. */
  predicate GateClean(s: Schema)
    decreases s
  {
    match s
    case ZBanned(_) | ZRecordByNumber(_) => false
    case ZNullable(inner) => GateClean(inner)
    case ZOptional(inner) => GateClean(inner)
    case ZArray(inner) => GateClean(inner)
    case ZRecord(inner) => GateClean(inner)
    case ZObject(fields) => forall f :: f in fields ==> GateClean(f.schema)
    case _ => true
  }

  /** Field names of every object in the tree are distinct, as they are in a JavaScript object. */
  predicate DistinctNames(s: Schema)
    decreases s
  {
    match s
    case ZNullable(inner) => DistinctNames(inner)
    case ZOptional(inner) => DistinctNames(inner)
    case ZArray(inner) => DistinctNames(inner)
    case ZRecord(inner) => DistinctNames(inner)
    case ZRecordByNumber(inner) => DistinctNames(inner)
    case ZObject(fields) =>
      && (forall i, j :: 0 <= i < j < |fields| ==> fields[i].name != fields[j].name)
      && forall f :: f in fields ==> DistinctNames(f.schema)
    case _ => true
  }

  /**
   * Whether every accepted value survives the wire. Where absence is allowed, as for an object's field,
   * `undefined` is harmless; anywhere else it is not.
   */
  predicate Survivable(s: Schema, mayBeAbsent: bool)
    decreases s
  {
    match s
    case ZString | ZBoolean | ZFiniteNumber | ZCoerceDate | ZRef(_) => true
    case ZNumber | ZUnknown => false
    case ZBanned(k) => mayBeAbsent && (k.ZUndefined? || k.ZVoid?)
    case ZNullable(inner) => Survivable(inner, mayBeAbsent)
    case ZOptional(inner) => mayBeAbsent && Survivable(inner, true)
    case ZArray(inner) => Survivable(inner, false)
    case ZRecord(inner) => Survivable(inner, true)
    case ZRecordByNumber(_) => true
    case ZObject(fields) => forall f :: f in fields ==> Survivable(f.schema, true)
  }

  ghost predicate Survives(d: Dates, env: Env, s: Schema, w: Value, depth: nat) {
    var t := Stringify(d, w);
    t.Text? && Parse(d, env, s, FromJson(t.j), depth) == Some(w)
  }

  // ----- names, and whether what they stand for may be absent

  type Modes = iset<(string, bool)>

  /** A value of `s`, absent or not, may need a value of the schema `n`, which may be absent exactly if `a`. */
  ghost predicate Refers(s: Schema, absent: bool, n: string, a: bool)
    decreases s
  {
    match s
    case ZRef(name) => name == n && absent == a
    case ZNullable(inner) => Refers(inner, absent, n, a)
    case ZOptional(inner) => Refers(inner, true, n, a)
    case ZArray(inner) => Refers(inner, false, n, a)
    case ZRecord(inner) => Refers(inner, true, n, a)
    case ZObject(fields) => exists f :: f in fields && Refers(f.schema, true, n, a)
    case _ => false
  }

  ghost predicate CoveredBy(env: Env, s: Schema, absent: bool, modes: Modes) {
    forall n, a :: Refers(s, absent, n, a) && n in env ==> (n, a) in modes
  }

  /** Each of the named schemas, absent or not, is safe as far as its own tree goes, and refers to others of them. */
  ghost predicate SafeModes(env: Env, modes: Modes) {
    forall n, a :: (n, a) in modes ==>
      n in env && Survivable(env[n], a) && DistinctNames(env[n]) && CoveredBy(env, env[n], a, modes)
  }

  lemma {:induction false} CoveredInner(env: Env, s: Schema, absent: bool, inner: Schema, b: bool, modes: Modes)
    requires CoveredBy(env, s, absent, modes)
    requires (s == ZNullable(inner) && b == absent) || (s == ZArray(inner) && !b)
             || (b && (s == ZOptional(inner) || s == ZRecord(inner)))
    ensures CoveredBy(env, inner, b, modes)
  {
    forall n, a | Refers(inner, b, n, a) && n in env
      ensures (n, a) in modes
    {
      assert Refers(s, absent, n, a);
    }
  }

  lemma {:induction false} CoveredFields(env: Env, fields: seq<Field>, absent: bool, modes: Modes)
    requires CoveredBy(env, ZObject(fields), absent, modes)
    ensures forall f :: f in fields ==> CoveredBy(env, f.schema, true, modes)
  {
    forall f | f in fields
      ensures CoveredBy(env, f.schema, true, modes)
    {
      forall n, a | Refers(f.schema, true, n, a) && n in env
        ensures (n, a) in modes
      {
        assert Refers(ZObject(fields), absent, n, a);
      }
    }
  }

  // ----- safe schemas round-trip

  /** What a survivable schema makes of null is not printed as null unless it is null. */
  lemma {:induction false} NullStaysNull(d: Dates, env: Env, s: Schema, depth: nat)
    requires GoodDates(d)
    ensures var r := Parse(d, env, s, Null, depth);
      r.Some? && Stringify(d, r.value) == Text(JNull) ==> r.value == Null
    decreases depth, s
  {
    match s {
      case ZOptional(inner) => NullStaysNull(d, env, inner, depth);
      case ZRef(name) => if depth > 0 && name in env { NullStaysNull(d, env, env[name], depth - 1); }
      case _ =>
    }
  }

  lemma {:induction false} LookupPast(prefix: seq<Prop>, rest: seq<Prop>, name: string)
    requires forall p :: p in prefix ==> p.name != name
    ensures Lookup(prefix + rest, name) == Lookup(rest, name)
  {
    if prefix == [] {
      assert prefix + rest == rest;
    } else {
      assert prefix[0] in prefix && (prefix + rest)[1..] == prefix[1..] + rest;
      LookupPast(prefix[1..], rest, name);
    }
  }

  lemma {:induction false} LookupAbsent(props: seq<Prop>, name: string)
    requires forall p :: p in props ==> p.name != name
    ensures Lookup(props, name) == Undefined
  {
    LookupPast(props, [], name);
    assert props + [] == props;
  }

  /** The properties that come back from the wire. */
  function Back(d: Dates, ws: seq<Prop>): seq<Prop>
    requires StringifyProps(d, ws).Some?
  {
    FromMembers(StringifyProps(d, ws).value)
  }

  ghost predicate Avoids(props: seq<Prop>, fields: seq<Field>) {
    forall p, f :: p in props && f in fields ==> p.name != f.name
  }

  lemma {:induction false} BackCons(d: Dates, p: Prop, rest: seq<Prop>)
    requires StringifyProps(d, rest).Some? && Stringify(d, p.value).Text?
    ensures StringifyProps(d, [p] + rest).Some?
    ensures Back(d, [p] + rest) == [Prop(p.name, FromJson(Stringify(d, p.value).j))] + Back(d, rest)
  {
    var ps := [p] + rest;
    assert ps[0] == p && ps[1..] == rest;
    var ms := StringifyProps(d, ps).value;
    assert ms[1..] == StringifyProps(d, rest).value;
  }

  predicate FieldsOk(fields: seq<Field>) {
    && (forall f :: f in fields ==> DistinctNames(f.schema) && Survivable(f.schema, true))
    && (forall i, j :: 0 <= i < j < |fields| ==> fields[i].name != fields[j].name)
  }

  lemma {:induction false} FieldsOkTail(prefix: seq<Prop>, fields: seq<Field>, v: Value)
    requires fields != [] && FieldsOk(fields) && Avoids(prefix, fields)
    ensures fields[0] in fields && FieldsOk(fields[1..]) && Avoids(prefix, fields[1..])
    ensures Avoids(prefix + [Prop(fields[0].name, v)], fields[1..])
    ensures forall p :: p in prefix ==> p.name != fields[0].name
  {
    assert forall g :: g in fields[1..] ==> g in fields;
  }

  /** The fields of an object come back whatever unrelated properties stand before them. */
  lemma {:induction false} RoundTripFields(d: Dates, env: Env, modes: Modes, fields: seq<Field>, props: seq<Prop>,
                                           prefix: seq<Prop>, depth: nat)
    requires GoodDates(d) && SafeModes(env, modes) && FieldsOk(fields)
    requires forall f :: f in fields ==> CoveredBy(env, f.schema, true, modes)
    requires Avoids(prefix, fields) && ParseFields(d, env, fields, props, depth).Some?
    ensures var ws := ParseFields(d, env, fields, props, depth).value;
      && StringifyProps(d, ws).Some? && NamedIn(Back(d, ws), fields)
      && ParseFields(d, env, fields, prefix + Back(d, ws), depth) == Some(ws)
    decreases depth, fields, 0
  {
    if fields != [] {
      var f, fs := fields[0], fields[1..];
      var v := Lookup(props, f.name);
      var w, rest := Parse(d, env, f.schema, v, depth).value, ParseFields(d, env, fs, props, depth).value;
      RoundTrip(d, env, modes, f.schema, true, v, depth);
      if w.Undefined? {
        FieldsOkTail(prefix, fields, Undefined);
        RoundTripFields(d, env, modes, fs, props, prefix, depth);
        FieldAbsent(prefix, Back(d, rest), fields);
      } else {
        var back := FromJson(Stringify(d, w).j);
        FieldsOkTail(prefix, fields, back);
        RoundTripFields(d, env, modes, fs, props, prefix + [Prop(f.name, back)], depth);
        FieldPresent(d, env, fields, w, rest, prefix, depth);
      }
    }
  }

  lemma {:induction false} FieldPresent(d: Dates, env: Env, fields: seq<Field>, w: Value, rest: seq<Prop>,
                                        prefix: seq<Prop>, depth: nat)
    requires fields != [] && StringifyProps(d, rest).Some? && NamedIn(Back(d, rest), fields[1..])
    requires !w.Undefined? && Survives(d, env, fields[0].schema, w, depth)
    requires forall p :: p in prefix ==> p.name != fields[0].name
    requires var p := Prop(fields[0].name, FromJson(Stringify(d, w).j));
      ParseFields(d, env, fields[1..], prefix + [p] + Back(d, rest), depth) == Some(rest)
    ensures var ws := [Prop(fields[0].name, w)] + rest;
      && StringifyProps(d, ws).Some? && NamedIn(Back(d, ws), fields)
      && ParseFields(d, env, fields, prefix + Back(d, ws), depth) == Some(ws)
  {
    var f := fields[0];
    var p := Prop(f.name, FromJson(Stringify(d, w).j));
    BackCons(d, Prop(f.name, w), rest);
    assert prefix + [p] + Back(d, rest) == prefix + ([p] + Back(d, rest));
    LookupPast(prefix, [p] + Back(d, rest), f.name);
    forall q | q in [p] + Back(d, rest)
      ensures exists g :: g in fields && g.name == q.name
    {
      if q == p {
        assert f in fields;
      } else {
        var g :| g in fields[1..] && g.name == q.name;
        assert g in fields;
      }
    }
  }

  lemma {:induction false} FieldAbsent(prefix: seq<Prop>, back: seq<Prop>, fields: seq<Field>)
    requires fields != [] && Avoids(prefix, fields) && NamedIn(back, fields[1..])
    requires forall i, j :: 0 <= i < j < |fields| ==> fields[i].name != fields[j].name
    ensures Lookup(prefix + back, fields[0].name) == Undefined
  {
    forall p | p in prefix + back
      ensures p.name != fields[0].name
    {
      if p in prefix {
        assert fields[0] in fields;
      } else {
        var f :| f in fields[1..] && f.name == p.name;
      }
    }
    LookupAbsent(prefix + back, fields[0].name);
  }

  /** Every value a survivable schema accepts comes back unchanged, however schemas refer to each other. */
  lemma {:induction false} RoundTrip(d: Dates, env: Env, modes: Modes, s: Schema, absent: bool, v: Value, depth: nat)
    requires GoodDates(d) && SafeModes(env, modes) && DistinctNames(s) && Survivable(s, absent)
    requires CoveredBy(env, s, absent, modes)
    requires Parse(d, env, s, v, depth).Some?
    ensures var w := Parse(d, env, s, v, depth).value;
      if w.Undefined? then absent && v.Undefined? else Survives(d, env, s, w, depth)
    decreases depth, s, 1
  {
    match s {
      case ZNullable(inner) =>
        if !v.Null? {
          CoveredInner(env, s, absent, inner, absent, modes);
          RoundTrip(d, env, modes, inner, absent, v, depth);
          NullableSurvives(d, env, inner, Parse(d, env, inner, v, depth).value, depth);
        }
      case ZOptional(inner) =>
        if !v.Undefined? {
          CoveredInner(env, s, absent, inner, true, modes);
          RoundTrip(d, env, modes, inner, true, v, depth);
          OptionalSurvives(d, env, inner, Parse(d, env, inner, v, depth).value, depth);
        }
      case ZArray(inner) =>
        CoveredInner(env, s, absent, inner, false, modes);
        RoundTripArray(d, env, modes, inner, v.elems, depth);
      case ZRecord(inner) =>
        CoveredInner(env, s, absent, inner, true, modes);
        RoundTripRecord(d, env, modes, inner, v.props, depth);
      case ZRef(name) =>
        assert Refers(s, absent, name, absent);
        RoundTrip(d, env, modes, env[name], absent, v, depth - 1);
      case ZObject(fields) =>
        CoveredFields(env, fields, absent, modes);
        RoundTripObject(d, env, modes, fields, v.props, depth);
      case _ =>
        RoundTripLeaf(d, env, s, absent, v, depth);
    }
  }

  lemma {:induction false} NullableSurvives(d: Dates, env: Env, s: Schema, w: Value, depth: nat)
    requires GoodDates(d)
    ensures Survives(d, env, s, w, depth) ==> Survives(d, env, ZNullable(s), w, depth)
  {
    NullStaysNull(d, env, s, depth);
    if Survives(d, env, s, w, depth) {
      var j := Stringify(d, w).j;
      FromJsonNull(j);
      NullableOf(d, env, s, FromJson(j), depth);
    }
  }

  lemma {:induction false} FromJsonNull(j: Json)
    ensures FromJson(j) == Null <==> j == JNull
  {
  }

  lemma {:induction false} NullableOf(d: Dates, env: Env, s: Schema, v: Value, depth: nat)
    ensures Parse(d, env, ZNullable(s), v, depth) == if v == Null then Some(Null) else Parse(d, env, s, v, depth)
  {
  }

  lemma {:induction false} OptionalSurvives(d: Dates, env: Env, s: Schema, w: Value, depth: nat)
    ensures Survives(d, env, s, w, depth) ==> Survives(d, env, ZOptional(s), w, depth)
  {
    if Stringify(d, w).Text? {
      FromJsonDefined(Stringify(d, w).j);
    }
  }

  lemma {:induction false} RoundTripLeaf(d: Dates, env: Env, s: Schema, absent: bool, v: Value, depth: nat)
    requires GoodDates(d) && Survivable(s, absent) && Parse(d, env, s, v, depth).Some?
    requires !s.ZNullable? && !s.ZOptional? && !s.ZArray? && !s.ZRecord? && !s.ZRef? && !s.ZObject?
    ensures var w := Parse(d, env, s, v, depth).value;
      if w.Undefined? then absent && v.Undefined? else Survives(d, env, s, w, depth)
  {
  }

  lemma {:induction false} RoundTripObject(d: Dates, env: Env, modes: Modes, fields: seq<Field>, props: seq<Prop>,
                                           depth: nat)
    requires GoodDates(d) && SafeModes(env, modes) && FieldsOk(fields)
    requires ParseFields(d, env, fields, props, depth).Some?
    requires forall f :: f in fields ==> CoveredBy(env, f.schema, true, modes)
    ensures Survives(d, env, ZObject(fields), Obj(ParseFields(d, env, fields, props, depth).value), depth)
    decreases depth, fields, 1
  {
    RoundTripFields(d, env, modes, fields, props, [], depth);
    var ws := ParseFields(d, env, fields, props, depth).value;
    assert [] + Back(d, ws) == Back(d, ws);
    ObjectSurvives(d, env, fields, ws, depth);
  }

  lemma {:induction false} ObjectSurvives(d: Dates, env: Env, fields: seq<Field>, ws: seq<Prop>, depth: nat)
    requires StringifyProps(d, ws).Some? && NamedIn(Back(d, ws), fields)
    requires ParseFields(d, env, fields, Back(d, ws), depth) == Some(ws)
    ensures Survives(d, env, ZObject(fields), Obj(ws), depth)
  {
  }

  lemma {:induction false} RoundTripArray(d: Dates, env: Env, modes: Modes, s: Schema, vs: seq<Value>, depth: nat)
    requires GoodDates(d) && SafeModes(env, modes) && DistinctNames(s) && Survivable(s, false)
    requires CoveredBy(env, s, false, modes)
    requires ParseAll(d, env, s, vs, depth).Some?
    ensures Survives(d, env, ZArray(s), Arr(ParseAll(d, env, s, vs, depth).value), depth)
    decreases depth, s, 3
  {
    RoundTripAll(d, env, modes, s, vs, depth);
  }

  lemma {:induction false} RoundTripRecord(d: Dates, env: Env, modes: Modes, s: Schema, ps: seq<Prop>, depth: nat)
    requires GoodDates(d) && SafeModes(env, modes) && DistinctNames(s) && Survivable(s, true)
    requires CoveredBy(env, s, true, modes)
    requires ParseProps(d, env, s, ps, depth).Some?
    ensures Survives(d, env, ZRecord(s), Obj(ParseProps(d, env, s, ps, depth).value), depth)
    decreases depth, s, 3
  {
    RoundTripProps(d, env, modes, s, ps, depth);
  }

  lemma {:induction false} RoundTripAll(d: Dates, env: Env, modes: Modes, s: Schema, vs: seq<Value>, depth: nat)
    requires GoodDates(d) && SafeModes(env, modes) && DistinctNames(s) && Survivable(s, false)
    requires CoveredBy(env, s, false, modes)
    requires ParseAll(d, env, s, vs, depth).Some?
    ensures var ws := ParseAll(d, env, s, vs, depth).value;
      && StringifyAll(d, ws).Some?
      && ParseAll(d, env, s, FromAll(StringifyAll(d, ws).value), depth) == Some(ws)
    decreases depth, s, 2, |vs|
  {
    if vs != [] {
      RoundTrip(d, env, modes, s, false, vs[0], depth);
      RoundTripAll(d, env, modes, s, vs[1..], depth);
      var w, rest := Parse(d, env, s, vs[0], depth).value, ParseAll(d, env, s, vs[1..], depth).value;
      var ws := [w] + rest;
      assert ws[0] == w && ws[1..] == rest;
      var js := StringifyAll(d, ws).value;
      assert js[1..] == StringifyAll(d, rest).value;
      assert FromAll(js)[1..] == FromAll(js[1..]);
    }
  }

  lemma {:induction false} RoundTripProps(d: Dates, env: Env, modes: Modes, s: Schema, ps: seq<Prop>, depth: nat)
    requires GoodDates(d) && SafeModes(env, modes) && DistinctNames(s) && Survivable(s, true)
    requires CoveredBy(env, s, true, modes)
    requires ParseProps(d, env, s, ps, depth).Some?
    ensures var ws := ParseProps(d, env, s, ps, depth).value;
      && StringifyProps(d, ws).Some?
      && ParseProps(d, env, s, FromMembers(StringifyProps(d, ws).value), depth) == Some(ws)
    decreases depth, s, 2, |ps|
  {
    if ps != [] {
      RoundTripProps(d, env, modes, s, ps[1..], depth);
      if !ps[0].value.Undefined? {
        RoundTrip(d, env, modes, s, true, ps[0].value, depth);
        var p := Prop(ps[0].name, Parse(d, env, s, ps[0].value, depth).value);
        PropSurvives(d, env, s, p, ParseProps(d, env, s, ps[1..], depth).value, depth);
      }
    }
  }

  lemma {:induction false} PropSurvives(d: Dates, env: Env, s: Schema, p: Prop, rest: seq<Prop>, depth: nat)
    requires Survives(d, env, s, p.value, depth)
    requires StringifyProps(d, rest).Some? && ParseProps(d, env, s, Back(d, rest), depth) == Some(rest)
    ensures var ws := [p] + rest;
      && StringifyProps(d, ws).Some?
      && ParseProps(d, env, s, FromMembers(StringifyProps(d, ws).value), depth) == Some(ws)
  {
    var j := Stringify(d, p.value).j;
    FromJsonDefined(j);
    BackCons(d, p, rest);
    PropsCons(d, env, s, Prop(p.name, FromJson(j)), Back(d, rest), depth);
  }

  lemma {:induction false} FromJsonDefined(j: Json)
    ensures !FromJson(j).Undefined?
  {
  }

  // ----- unsafe schemas do not

  /** Every reference in the schema's own tree is to one of these names. */
  predicate RefsIn(s: Schema, names: set<string>)
    decreases s
  {
    match s
    case ZRef(name) => name in names
    case ZNullable(inner) => RefsIn(inner, names)
    case ZOptional(inner) => RefsIn(inner, names)
    case ZArray(inner) => RefsIn(inner, names)
    case ZRecord(inner) => RefsIn(inner, names)
    case ZRecordByNumber(inner) => RefsIn(inner, names)
    case ZObject(fields) => forall f :: f in fields ==> RefsIn(f.schema, names)
    case _ => true
  }

  /** For each of some names, a value. */
  type Witness = map<string, Value>

  /** Each of the named schemas accepts its witness as it stands. */
  ghost predicate Inhabits(d: Dates, env: Env, w: Witness, depth: nat) {
    forall n :: n in w ==> Parse(d, env, ZRef(n), w[n], depth) == Some(w[n])
  }

  function KindValue(k: Banned): Value {
    match k
    case ZDate => Date(0)
    case ZBigInt => BigInt(0)
    case ZMap => MapObject
    case ZSet => SetObject
    case ZNan => NaN
    case ZSymbol => Symbol
    case ZFunction => Function
    case ZPromise => Promise
    case ZUndefined | ZVoid => Undefined
    case ZInstance => Instance
  }

  /** Some value the schema accepts as it stands. */
  function Sample(w: Witness, s: Schema): Value
    requires RefsIn(s, w.Keys)
    decreases s, 1
  {
    match s
    case ZString => Str("")
    case ZBoolean => Bool(false)
    case ZNumber | ZFiniteNumber => Num(0.0)
    case ZCoerceDate => Date(0)
    case ZUnknown | ZNullable(_) => Null
    case ZBanned(k) => KindValue(k)
    case ZOptional(_) => Undefined
    case ZArray(_) => Arr([])
    case ZRecord(_) | ZRecordByNumber(_) => Obj([])
    case ZObject(fields) => Obj(Filled(fields, Samples(w, fields)))
    case ZRef(name) => w[name]
  }

  function Samples(w: Witness, fields: seq<Field>): (vs: seq<Value>)
    requires forall f :: f in fields ==> RefsIn(f.schema, w.Keys)
    ensures |vs| == |fields|
    ensures forall i :: 0 <= i < |fields| ==> vs[i] == Sample(w, fields[i].schema)
    decreases fields, 0
  {
    if fields == [] then []
    else
      assert fields[0] in fields;
      [Sample(w, fields[0].schema)] + Samples(w, fields[1..])
  }

  /** The object with these field values. */
  function Filled(fields: seq<Field>, vs: seq<Value>): seq<Prop>
    requires |vs| == |fields|
  {
    if fields == [] then []
    else (if vs[0].Undefined? then [] else [Prop(fields[0].name, vs[0])]) + Filled(fields[1..], vs[1..])
  }

  /** A value the schema accepts as it stands, and that nothing read from the wire is parsed to. */
  function Lost(w: Witness, s: Schema, absent: bool): Value
    requires RefsIn(s, w.Keys) && !Survivable(s, absent)
    decreases s, 1
  {
    match s
    case ZNumber => Infinite(false)
    case ZUnknown => BigInt(0)
    case ZBanned(k) => KindValue(k)
    case ZNullable(inner) => Lost(w, inner, absent)
    case ZOptional(inner) => if !absent then Undefined else Lost(w, inner, true)
    case ZArray(inner) => Arr([Lost(w, inner, false)])
    case ZRecord(inner) => Obj([Prop("", Lost(w, inner, true))])
    case ZObject(fields) =>
      var i := BadField(fields);
      Obj(Filled(fields, Samples(w, fields)[i := Lost(w, fields[i].schema, true)]))
  }

  function BadField(fields: seq<Field>): (i: nat)
    requires exists f :: f in fields && !Survivable(f.schema, true)
    ensures i < |fields| && !Survivable(fields[i].schema, true)
  {
    if !Survivable(fields[0].schema, true) then 0
    else
      assert exists f :: f in fields[1..] && !Survivable(f.schema, true) by {
        var f :| f in fields && !Survivable(f.schema, true);
      }
      1 + BadField(fields[1..])
  }

  lemma {:induction false} FilledNamed(fields: seq<Field>, vs: seq<Value>)
    requires |vs| == |fields|
    ensures NamedIn(Filled(fields, vs), fields)
  {
    if fields != [] {
      FilledNamed(fields[1..], vs[1..]);
      forall p | p in Filled(fields, vs)
        ensures exists f :: f in fields && f.name == p.name
      {
        if p in Filled(fields[1..], vs[1..]) {
          var f :| f in fields[1..] && f.name == p.name;
          assert f in fields;
        } else {
          assert fields[0] in fields;
        }
      }
    }
  }

  ghost predicate DistinctFields(fields: seq<Field>) {
    forall i, j :: 0 <= i < j < |fields| ==> fields[i].name != fields[j].name
  }

  lemma {:induction false} FilledLookup(fields: seq<Field>, vs: seq<Value>, prefix: seq<Prop>)
    requires fields != [] && |vs| == |fields| && DistinctFields(fields) && Avoids(prefix, fields)
    ensures Lookup(prefix + Filled(fields, vs), fields[0].name) == vs[0]
  {
    FilledNamed(fields[1..], vs[1..]);
    if vs[0].Undefined? {
      assert Filled(fields, vs) == Filled(fields[1..], vs[1..]);
      FieldAbsent(prefix, Filled(fields[1..], vs[1..]), fields);
    } else {
      assert fields[0] in fields;
      LookupPast(prefix, Filled(fields, vs), fields[0].name);
    }
  }

  /** An object whose field values are accepted as they stand is accepted as it stands. */
  lemma {:induction false} FilledParses(d: Dates, env: Env, fields: seq<Field>, vs: seq<Value>, prefix: seq<Prop>,
                                        depth: nat)
    requires |vs| == |fields| && DistinctFields(fields) && Avoids(prefix, fields)
    requires forall i :: 0 <= i < |fields| ==> Parse(d, env, fields[i].schema, vs[i], depth) == Some(vs[i])
    ensures ParseFields(d, env, fields, prefix + Filled(fields, vs), depth) == Some(Filled(fields, vs))
    decreases |fields|
  {
    if fields != [] {
      var fs, us := fields[1..], vs[1..];
      var more := if vs[0].Undefined? then prefix else prefix + [Prop(fields[0].name, vs[0])];
      FilledLookup(fields, vs, prefix);
      AvoidsTail(fields, prefix, vs[0]);
      FilledParses(d, env, fs, us, more, depth);
      FilledFrom(fields, vs, prefix);
      FilledNext(d, env, fields, vs, more + Filled(fs, us), depth);
    }
  }

  lemma {:induction false} FilledFrom(fields: seq<Field>, vs: seq<Value>, prefix: seq<Prop>)
    requires fields != [] && |vs| == |fields|
    ensures prefix + Filled(fields, vs)
         == (if vs[0].Undefined? then prefix else prefix + [Prop(fields[0].name, vs[0])]) + Filled(fields[1..], vs[1..])
  {
    var rest, p := Filled(fields[1..], vs[1..]), Prop(fields[0].name, vs[0]);
    if vs[0].Undefined? {
      assert [] + rest == rest;
    } else {
      assert prefix + ([p] + rest) == prefix + [p] + rest;
    }
  }

  lemma {:induction false} FilledNext(d: Dates, env: Env, fields: seq<Field>, vs: seq<Value>, props: seq<Prop>,
                                      depth: nat)
    requires fields != [] && |vs| == |fields| && Lookup(props, fields[0].name) == vs[0]
    requires Parse(d, env, fields[0].schema, vs[0], depth) == Some(vs[0])
    requires ParseFields(d, env, fields[1..], props, depth) == Some(Filled(fields[1..], vs[1..]))
    ensures ParseFields(d, env, fields, props, depth) == Some(Filled(fields, vs))
  {
    var rest := Filled(fields[1..], vs[1..]);
    assert [] + rest == rest;
  }

  lemma {:induction false} AvoidsTail(fields: seq<Field>, prefix: seq<Prop>, v: Value)
    requires fields != [] && DistinctFields(fields) && Avoids(prefix, fields)
    ensures DistinctFields(fields[1..]) && Avoids(prefix, fields[1..])
    ensures Avoids(prefix + [Prop(fields[0].name, v)], fields[1..])
  {
    assert forall f :: f in fields[1..] ==> f in fields;
  }

  lemma {:induction false} ObjectParses(d: Dates, env: Env, fields: seq<Field>, vs: seq<Value>, depth: nat)
    requires |vs| == |fields| && DistinctFields(fields)
    requires forall i :: 0 <= i < |fields| ==> Parse(d, env, fields[i].schema, vs[i], depth) == Some(vs[i])
    ensures var w := Obj(Filled(fields, vs)); Parse(d, env, ZObject(fields), w, depth) == Some(w)
  {
    var props := Filled(fields, vs);
    FilledParses(d, env, fields, vs, [], depth);
    FilledNamed(fields, vs);
    assert [] + props == props;
    ObjectOf(d, env, fields, props, depth);
  }

  lemma {:induction false} ObjectOf(d: Dates, env: Env, fields: seq<Field>, props: seq<Prop>, depth: nat)
    requires NamedIn(props, fields) && ParseFields(d, env, fields, props, depth) == Some(props)
    ensures Parse(d, env, ZObject(fields), Obj(props), depth) == Some(Obj(props))
  {
  }

  lemma {:induction false} SampleParses(d: Dates, env: Env, w: Witness, s: Schema, depth: nat)
    requires GoodDates(d) && RefsIn(s, w.Keys) && Inhabits(d, env, w, depth) && DistinctNames(s)
    ensures Parse(d, env, s, Sample(w, s), depth) == Some(Sample(w, s))
    decreases s
  {
    match s {
      case ZObject(fields) =>
        forall i | 0 <= i < |fields|
          ensures Parse(d, env, fields[i].schema, Samples(w, fields)[i], depth) == Some(Samples(w, fields)[i])
        {
          assert fields[i] in fields;
          SampleParses(d, env, w, fields[i].schema, depth);
        }
        ObjectParses(d, env, fields, Samples(w, fields), depth);
      case _ =>
    }
  }

  lemma {:induction false} SingletonParses(d: Dates, env: Env, s: Schema, w: Value, depth: nat)
    requires Parse(d, env, s, w, depth) == Some(w)
    ensures ParseAll(d, env, s, [w], depth) == Some([w])
    ensures !w.Undefined? ==> ParseProps(d, env, s, [Prop("", w)], depth) == Some([Prop("", w)])
  {
    AllCons(d, env, s, w, [], depth);
    assert [w] + [] == [w];
    if !w.Undefined? {
      PropsCons(d, env, s, Prop("", w), [], depth);
      assert [Prop("", w)] + [] == [Prop("", w)];
    }
  }

  lemma {:induction false} AllCons(d: Dates, env: Env, s: Schema, v: Value, rest: seq<Value>, depth: nat)
    requires Parse(d, env, s, v, depth).Some? && ParseAll(d, env, s, rest, depth).Some?
    ensures ParseAll(d, env, s, [v] + rest, depth)
         == Some([Parse(d, env, s, v, depth).value] + ParseAll(d, env, s, rest, depth).value)
  {
    var vs := [v] + rest;
    assert vs[0] == v && vs[1..] == rest;
  }

  lemma {:induction false} PropsCons(d: Dates, env: Env, s: Schema, p: Prop, rest: seq<Prop>, depth: nat)
    requires !p.value.Undefined?
    requires Parse(d, env, s, p.value, depth).Some? && ParseProps(d, env, s, rest, depth).Some?
    ensures ParseProps(d, env, s, [p] + rest, depth)
         == Some([Prop(p.name, Parse(d, env, s, p.value, depth).value)] + ParseProps(d, env, s, rest, depth).value)
  {
    var ps := [p] + rest;
    assert ps[0] == p && ps[1..] == rest;
  }

  lemma {:induction false} AllFromWire(js: seq<Json>, i: nat)
    requires i < |js|
    ensures FromAll(js)[i] == FromJson(js[i])
  {
    if i > 0 {
      AllFromWire(js[1..], i - 1);
    }
  }

  lemma {:induction false} PropsFromWire(ms: seq<Member>, q: Prop)
    requires q in FromMembers(ms)
    ensures exists j :: q.value == FromJson(j)
  {
    if q != Prop(ms[0].name, FromJson(ms[0].value)) {
      PropsFromWire(ms[1..], q);
    }
  }

  lemma {:induction false} LookupFromWire(ms: seq<Member>, name: string)
    ensures Lookup(FromMembers(ms), name).Undefined? || exists j :: Lookup(FromMembers(ms), name) == FromJson(j)
  {
    if ms != [] {
      var ps := FromMembers(ms);
      assert ps[0] == Prop(ms[0].name, FromJson(ms[0].value)) && ps[1..] == FromMembers(ms[1..]);
      if ms[0].name == name {
        assert Lookup(ps, name) == FromJson(ms[0].value);
      } else {
        LookupFromWire(ms[1..], name);
      }
    }
  }

  lemma {:induction false} RecordOutput(d: Dates, env: Env, s: Schema, ps: seq<Prop>, p: Prop, depth: nat)
    requires ParseProps(d, env, s, ps, depth).Some? && p in ParseProps(d, env, s, ps, depth).value
    ensures exists q :: q in ps && Parse(d, env, s, q.value, depth) == Some(p.value)
    decreases |ps|
  {
    if ps[0].value.Undefined? || Parse(d, env, s, ps[0].value, depth).value != p.value {
      RecordOutput(d, env, s, ps[1..], p, depth);
      var q :| q in ps[1..] && Parse(d, env, s, q.value, depth) == Some(p.value);
      assert q in ps;
    } else {
      assert ps[0] in ps;
    }
  }

  lemma {:induction false} FieldOutput(d: Dates, env: Env, fields: seq<Field>, props: seq<Prop>, p: Prop, depth: nat)
    requires ParseFields(d, env, fields, props, depth).Some? && p in ParseFields(d, env, fields, props, depth).value
    ensures exists f :: f in fields && f.name == p.name
              && Parse(d, env, f.schema, Lookup(props, f.name), depth) == Some(p.value)
    decreases |fields|
  {
    var f := fields[0];
    if Parse(d, env, f.schema, Lookup(props, f.name), depth) == Some(p.value) && f.name == p.name {
      assert f in fields;
    } else {
      FieldOutput(d, env, fields[1..], props, p, depth);
      var g :| g in fields[1..] && g.name == p.name
               && Parse(d, env, g.schema, Lookup(props, g.name), depth) == Some(p.value);
      assert g in fields;
    }
  }

  lemma {:induction false} FilledHas(fields: seq<Field>, vs: seq<Value>, i: nat)
    requires i < |fields| == |vs| && !vs[i].Undefined?
    ensures Prop(fields[i].name, vs[i]) in Filled(fields, vs)
  {
    if i > 0 {
      FilledHas(fields[1..], vs[1..], i - 1);
    }
  }

  ghost predicate NotFromWire(d: Dates, env: Env, s: Schema, absent: bool, w: Value, depth: nat) {
    && (forall j :: Parse(d, env, s, FromJson(j), depth) != Some(w))
    && (absent ==> Parse(d, env, s, Undefined, depth) != Some(w))
  }

  lemma {:induction false} NeverUndefined(d: Dates, env: Env, s: Schema, v: Value, depth: nat)
    requires Parse(d, env, s, v, depth) == Some(Undefined)
    ensures v.Undefined?
    decreases depth, s
  {
    match s {
      case ZNullable(inner) => if !v.Null? { NeverUndefined(d, env, inner, v, depth); }
      case ZOptional(inner) => if !v.Undefined? { NeverUndefined(d, env, inner, v, depth); }
      case ZRef(name) => NeverUndefined(d, env, env[name], v, depth - 1);
      case _ =>
    }
  }

  lemma {:induction false} FirstOutput(d: Dates, env: Env, s: Schema, vs: seq<Value>, depth: nat)
    requires vs != [] && ParseAll(d, env, s, vs, depth).Some?
    ensures ParseAll(d, env, s, vs, depth).value != []
    ensures Parse(d, env, s, vs[0], depth) == Some(ParseAll(d, env, s, vs, depth).value[0])
  {
  }

  lemma {:induction false} LostArray(d: Dates, env: Env, s: Schema, w: Value, depth: nat)
    requires NotFromWire(d, env, s, false, w, depth)
    ensures NotFromWire(d, env, ZArray(s), true, Arr([w]), depth)
  {
    forall j
      ensures Parse(d, env, ZArray(s), FromJson(j), depth) != Some(Arr([w]))
    {
      if j.JArr? && ParseAll(d, env, s, FromAll(j.elems), depth) == Some([w]) {
        AllFromWire(j.elems, 0);
        FirstOutput(d, env, s, FromAll(j.elems), depth);
      }
    }
  }

  lemma {:induction false} LostRecord(d: Dates, env: Env, s: Schema, w: Value, depth: nat)
    requires NotFromWire(d, env, s, true, w, depth)
    ensures NotFromWire(d, env, ZRecord(s), true, Obj([Prop("", w)]), depth)
  {
    forall j
      ensures Parse(d, env, ZRecord(s), FromJson(j), depth) != Some(Obj([Prop("", w)]))
    {
      if j.JObj? && ParseProps(d, env, s, FromMembers(j.members), depth) == Some([Prop("", w)]) {
        RecordOutput(d, env, s, FromMembers(j.members), Prop("", w), depth);
        var q :| q in FromMembers(j.members) && Parse(d, env, s, q.value, depth) == Some(w);
        PropsFromWire(j.members, q);
      }
    }
  }

  lemma {:induction false} LostObject(d: Dates, env: Env, fields: seq<Field>, vs: seq<Value>, i: nat, depth: nat)
    requires |vs| == |fields| && i < |fields| && DistinctFields(fields) && !vs[i].Undefined?
    requires NotFromWire(d, env, fields[i].schema, true, vs[i], depth)
    ensures NotFromWire(d, env, ZObject(fields), true, Obj(Filled(fields, vs)), depth)
  {
    var p := Prop(fields[i].name, vs[i]);
    FilledHas(fields, vs, i);
    forall j
      ensures Parse(d, env, ZObject(fields), FromJson(j), depth) != Some(Obj(Filled(fields, vs)))
    {
      if j.JObj? && ParseFields(d, env, fields, FromMembers(j.members), depth) == Some(Filled(fields, vs)) {
        var props := FromMembers(j.members);
        FieldOutput(d, env, fields, props, p, depth);
        var f :| f in fields && f.name == p.name
                 && Parse(d, env, f.schema, Lookup(props, f.name), depth) == Some(p.value);
        assert f == fields[i];
        LookupFromWire(j.members, f.name);
      }
    }
  }

  lemma {:induction false} UndefinedNotFromWire(d: Dates, env: Env, s: Schema, depth: nat)
    ensures NotFromWire(d, env, s, false, Undefined, depth)
  {
    forall j
      ensures Parse(d, env, s, FromJson(j), depth) != Some(Undefined)
    {
      if Parse(d, env, s, FromJson(j), depth) == Some(Undefined) {
        NeverUndefined(d, env, s, FromJson(j), depth);
        FromJsonDefined(j);
      }
    }
  }

  /** Every value the schema accepts survives the wire, at whatever depth of references. */
  ghost predicate RoundTrips(d: Dates, env: Env, s: Schema) {
    forall v, depth :: Parse(d, env, s, v, depth).Some?
                       ==> Survives(d, env, s, Parse(d, env, s, v, depth).value, depth)
  }

  // ----- which names a schema leads to

  ghost predicate Hop(env: Env, path: seq<(string, bool)>, i: nat)
    requires i + 1 < |path|
  {
    path[i].0 in env && Refers(env[path[i].0], path[i].1, path[i + 1].0, path[i + 1].1)
  }

  /** From each name to the next, the schema of the first refers to the second. */
  ghost predicate ModePath(env: Env, path: seq<(string, bool)>) {
    path != [] && forall i :: 0 <= i < |path| - 1 ==> Hop(env, path, i)
  }

  ghost predicate LeadsBy(env: Env, s: Schema, path: seq<(string, bool)>, n: string, a: bool) {
    ModePath(env, path) && Refers(s, false, path[0].0, path[0].1) && path[|path| - 1] == (n, a)
  }

  /**
   * A value of `s` may need one of the schema `n`, through however many other names, in a place where it may be
   * absent exactly if `a`.
   */
  ghost predicate Leads(env: Env, s: Schema, n: string, a: bool) {
    exists path :: LeadsBy(env, s, path, n, a)
  }

  lemma {:induction false} LeadsOn(env: Env, s: Schema, m: string, b: bool, n: string, a: bool)
    requires Leads(env, s, m, b) && m in env && Refers(env[m], b, n, a)
    ensures Leads(env, s, n, a)
  {
    var path: seq<(string, bool)> :| LeadsBy(env, s, path, m, b);
    var longer := path + [(n, a)];
    forall i | 0 <= i < |longer| - 1
      ensures Hop(env, longer, i)
    {
      assert i < |path| - 1 ==> Hop(env, path, i);
    }
    assert LeadsBy(env, s, longer, n, a);
  }

  lemma {:induction false} LeadsFirst(env: Env, s: Schema, n: string, a: bool)
    requires Refers(s, false, n, a)
    ensures Leads(env, s, n, a)
  {
    assert LeadsBy(env, s, [(n, a)], n, a);
  }

  /** The schema and all it leads to are safe, each where it stands. */
  ghost predicate Sound(env: Env, s: Schema) {
    Survivable(s, false) && forall n, a :: Leads(env, s, n, a) && n in env ==> Survivable(env[n], a)
  }

  ghost predicate NamesDistinct(env: Env, s: Schema) {
    DistinctNames(s) && forall n, a :: Leads(env, s, n, a) && n in env ==> DistinctNames(env[n])
  }

  /** If all that a schema leads to is safe, every value comes back. */
  lemma {:induction false} SoundSurvives(d: Dates, env: Env, s: Schema)
    requires GoodDates(d) && NamesDistinct(env, s) && Sound(env, s)
    ensures RoundTrips(d, env, s)
  {
    var modes: Modes := iset n, a | n in env && Leads(env, s, n, a) :: (n, a);
    forall n, a | (n, a) in modes
      ensures CoveredBy(env, env[n], a, modes)
    {
      forall m, b | Refers(env[n], a, m, b) && m in env
        ensures (m, b) in modes
      {
        LeadsOn(env, s, n, a, m, b);
      }
    }
    forall n, a | Refers(s, false, n, a) && n in env
      ensures (n, a) in modes
    {
      LeadsFirst(env, s, n, a);
    }
    forall v, depth | Parse(d, env, s, v, depth).Some?
      ensures Survives(d, env, s, Parse(d, env, s, v, depth).value, depth)
    {
      RoundTrip(d, env, modes, s, false, v, depth);
    }
  }

  // ----- a value accepted at one depth is accepted at every greater one

  lemma {:induction false} Deeper(d: Dates, env: Env, s: Schema, v: Value, depth: nat)
    requires Parse(d, env, s, v, depth).Some?
    ensures Parse(d, env, s, v, depth + 1) == Parse(d, env, s, v, depth)
    decreases depth, s, 1
  {
    match s {
      case ZNullable(inner) => if !v.Null? { Deeper(d, env, inner, v, depth); }
      case ZOptional(inner) => if !v.Undefined? { Deeper(d, env, inner, v, depth); }
      case ZArray(inner) => AllDeeper(d, env, inner, v.elems, depth);
      case ZRecord(inner) => PropsDeeper(d, env, inner, v.props, depth);
      case ZObject(fields) => FieldsDeeper(d, env, fields, v.props, depth);
      case ZRef(name) => Deeper(d, env, env[name], v, depth - 1);
      case _ =>
    }
  }

  lemma {:induction false} AllDeeper(d: Dates, env: Env, s: Schema, vs: seq<Value>, depth: nat)
    requires ParseAll(d, env, s, vs, depth).Some?
    ensures ParseAll(d, env, s, vs, depth + 1) == ParseAll(d, env, s, vs, depth)
    decreases depth, s, 2, |vs|
  {
    if vs != [] {
      Deeper(d, env, s, vs[0], depth);
      AllDeeper(d, env, s, vs[1..], depth);
    }
  }

  lemma {:induction false} PropsDeeper(d: Dates, env: Env, s: Schema, ps: seq<Prop>, depth: nat)
    requires ParseProps(d, env, s, ps, depth).Some?
    ensures ParseProps(d, env, s, ps, depth + 1) == ParseProps(d, env, s, ps, depth)
    decreases depth, s, 2, |ps|
  {
    if ps != [] {
      if !ps[0].value.Undefined? { Deeper(d, env, s, ps[0].value, depth); }
      PropsDeeper(d, env, s, ps[1..], depth);
    }
  }

  lemma {:induction false} FieldsDeeper(d: Dates, env: Env, fields: seq<Field>, props: seq<Prop>, depth: nat)
    requires ParseFields(d, env, fields, props, depth).Some?
    ensures ParseFields(d, env, fields, props, depth + 1) == ParseFields(d, env, fields, props, depth)
    decreases depth, fields, 0
  {
    if fields != [] {
      Deeper(d, env, fields[0].schema, Lookup(props, fields[0].name), depth);
      FieldsDeeper(d, env, fields[1..], props, depth);
    }
  }

  // ----- values lost through names

  /** A value that the schema accepts as it stands and that nothing read from the wire is parsed to. */
  ghost predicate IsLost(d: Dates, env: Env, s: Schema, absent: bool, x: Value, depth: nat) {
    && Parse(d, env, s, x, depth) == Some(x) && NotFromWire(d, env, s, absent, x, depth)
    && !x.Null? && (absent ==> !x.Undefined?)
  }

  lemma {:induction false} ThroughName(d: Dates, env: Env, n: string, absent: bool, x: Value, depth: nat)
    requires n in env && IsLost(d, env, env[n], absent, x, depth)
    ensures IsLost(d, env, ZRef(n), absent, x, depth + 1)
  {
    assert forall v :: Parse(d, env, ZRef(n), v, depth + 1) == Parse(d, env, env[n], v, depth);
  }

  lemma {:induction false} ThroughNullable(d: Dates, env: Env, s: Schema, absent: bool, x: Value, depth: nat)
    requires IsLost(d, env, s, absent, x, depth)
    ensures IsLost(d, env, ZNullable(s), absent, x, depth)
  {
  }

  lemma {:induction false} ThroughOptional(d: Dates, env: Env, s: Schema, absent: bool, x: Value, depth: nat)
    requires IsLost(d, env, s, true, x, depth)
    ensures IsLost(d, env, ZOptional(s), absent, x, depth)
  {
  }

  lemma {:induction false} ThroughArray(d: Dates, env: Env, s: Schema, absent: bool, x: Value, depth: nat)
    requires IsLost(d, env, s, false, x, depth)
    ensures IsLost(d, env, ZArray(s), absent, Arr([x]), depth)
  {
    SingletonParses(d, env, s, x, depth);
    LostArray(d, env, s, x, depth);
  }

  lemma {:induction false} ThroughRecord(d: Dates, env: Env, s: Schema, absent: bool, x: Value, depth: nat)
    requires IsLost(d, env, s, true, x, depth)
    ensures IsLost(d, env, ZRecord(s), absent, Obj([Prop("", x)]), depth)
  {
    SingletonParses(d, env, s, x, depth);
    LostRecord(d, env, s, x, depth);
  }

  lemma {:induction false} ThroughObject(d: Dates, env: Env, w: Witness, fields: seq<Field>, absent: bool, i: nat,
                                         x: Value, depth: nat)
    requires GoodDates(d) && RefsIn(ZObject(fields), w.Keys) && Inhabits(d, env, w, depth)
    requires DistinctNames(ZObject(fields)) && i < |fields| && IsLost(d, env, fields[i].schema, true, x, depth)
    ensures IsLost(d, env, ZObject(fields), absent, Obj(Filled(fields, Samples(w, fields)[i := x])), depth)
  {
    var vs := Samples(w, fields)[i := x];
    forall k | 0 <= k < |fields|
      ensures Parse(d, env, fields[k].schema, vs[k], depth) == Some(vs[k])
    {
      assert fields[k] in fields;
      if k != i { SampleParses(d, env, w, fields[k].schema, depth); }
    }
    ObjectParses(d, env, fields, vs, depth);
    LostObject(d, env, fields, vs, i, depth);
  }

  /** What a name loses, every schema that refers to it loses too. */
  lemma {:induction false} LostThrough(d: Dates, env: Env, w: Witness, s: Schema, absent: bool, n: string, a: bool,
                                       l: Value, depth: nat) returns (x: Value)
    requires GoodDates(d) && RefsIn(s, w.Keys) && Inhabits(d, env, w, depth) && DistinctNames(s)
    requires Refers(s, absent, n, a) && IsLost(d, env, ZRef(n), a, l, depth)
    ensures IsLost(d, env, s, absent, x, depth)
    decreases s
  {
    match s {
      case ZRef(_) => x := l;
      case ZNullable(inner) =>
        x := LostThrough(d, env, w, inner, absent, n, a, l, depth);
        ThroughNullable(d, env, inner, absent, x, depth);
      case ZOptional(inner) =>
        x := LostThrough(d, env, w, inner, true, n, a, l, depth);
        ThroughOptional(d, env, inner, absent, x, depth);
      case ZArray(inner) =>
        var y := LostThrough(d, env, w, inner, false, n, a, l, depth);
        ThroughArray(d, env, inner, absent, y, depth);
        x := Arr([y]);
      case ZRecord(inner) =>
        var y := LostThrough(d, env, w, inner, true, n, a, l, depth);
        ThroughRecord(d, env, inner, absent, y, depth);
        x := Obj([Prop("", y)]);
      case ZObject(fields) =>
        var f :| f in fields && Refers(f.schema, true, n, a);
        var i :| 0 <= i < |fields| && fields[i] == f;
        var y := LostThrough(d, env, w, f.schema, true, n, a, l, depth);
        ThroughObject(d, env, w, fields, absent, i, y, depth);
        x := Obj(Filled(fields, Samples(w, fields)[i := y]));
    }
  }

  /** Schemas that accept something, with distinct field names, and that refer to each other only. */
  ghost predicate SelfContained(d: Dates, env: Env, w: Witness, depth: nat) {
    && Inhabits(d, env, w, depth)
    && forall n :: n in w ==> n in env && RefsIn(env[n], w.Keys) && DistinctNames(env[n])
  }

  lemma {:induction false} SelfContainedDeeper(d: Dates, env: Env, w: Witness, depth: nat)
    requires SelfContained(d, env, w, depth)
    ensures SelfContained(d, env, w, depth + 1)
  {
    forall n | n in w
      ensures Parse(d, env, ZRef(n), w[n], depth + 1) == Some(w[n])
    {
      Deeper(d, env, ZRef(n), w[n], depth);
    }
  }

  lemma {:induction false} RefersIn(s: Schema, absent: bool, n: string, a: bool, names: set<string>)
    requires RefsIn(s, names) && Refers(s, absent, n, a)
    ensures n in names
    decreases s
  {
    match s {
      case ZNullable(inner) => RefersIn(inner, absent, n, a, names);
      case ZOptional(inner) => RefersIn(inner, true, n, a, names);
      case ZArray(inner) => RefersIn(inner, false, n, a, names);
      case ZRecord(inner) => RefersIn(inner, true, n, a, names);
      case ZObject(fields) =>
        var f :| f in fields && Refers(f.schema, true, n, a);
        RefersIn(f.schema, true, n, a, names);
      case _ =>
    }
  }

  lemma {:induction false} ModePathTail(env: Env, path: seq<(string, bool)>)
    requires ModePath(env, path) && |path| > 1
    ensures ModePath(env, path[1..])
  {
    forall i | 0 <= i < |path| - 2
      ensures Hop(env, path[1..], i)
    {
      assert Hop(env, path, i + 1);
    }
  }

  lemma {:induction false} LostLeaf(d: Dates, env: Env, w: Witness, s: Schema, absent: bool, depth: nat)
    requires (s.ZNumber? || s.ZUnknown? || s.ZBanned?) && !Survivable(s, absent)
    ensures IsLost(d, env, s, absent, Lost(w, s, absent), depth)
  {
  }

  /** The lost value of an unsafe schema. */
  lemma {:induction false} LostHere(d: Dates, env: Env, w: Witness, s: Schema, absent: bool, depth: nat)
    requires GoodDates(d) && RefsIn(s, w.Keys) && Inhabits(d, env, w, depth)
    requires DistinctNames(s) && !Survivable(s, absent)
    ensures IsLost(d, env, s, absent, Lost(w, s, absent), depth)
    decreases s
  {
    match s {
      case ZNullable(inner) =>
        LostHere(d, env, w, inner, absent, depth);
        ThroughNullable(d, env, inner, absent, Lost(w, inner, absent), depth);
      case ZOptional(inner) =>
        if absent {
          LostHere(d, env, w, inner, true, depth);
          ThroughOptional(d, env, inner, absent, Lost(w, inner, true), depth);
        } else {
          UndefinedNotFromWire(d, env, s, depth);
        }
      case ZArray(inner) =>
        LostHere(d, env, w, inner, false, depth);
        ThroughArray(d, env, inner, absent, Lost(w, inner, false), depth);
      case ZRecord(inner) =>
        LostHere(d, env, w, inner, true, depth);
        ThroughRecord(d, env, inner, absent, Lost(w, inner, true), depth);
      case ZObject(fields) =>
        var i := BadField(fields);
        assert fields[i] in fields;
        LostHere(d, env, w, fields[i].schema, true, depth);
        ThroughObject(d, env, w, fields, absent, i, Lost(w, fields[i].schema, true), depth);
      case _ =>
        LostLeaf(d, env, w, s, absent, depth);
    }
  }

  lemma {:induction false} LostNamed(d: Dates, env: Env, w: Witness, m: string, b: bool, y: Value, depth: nat)
    requires SelfContained(d, env, w, depth) && m in env && IsLost(d, env, env[m], b, y, depth)
    ensures SelfContained(d, env, w, depth + 1) && IsLost(d, env, ZRef(m), b, y, depth + 1)
  {
    ThroughName(d, env, m, b, y, depth);
    SelfContainedDeeper(d, env, w, depth);
  }

  lemma {:induction false} LostBefore(d: Dates, env: Env, w: Witness, m: string, b: bool, n: string, a: bool,
                                      l: Value, depth: nat) returns (y: Value)
    requires GoodDates(d) && SelfContained(d, env, w, depth) && m in w
    requires Refers(env[m], b, n, a) && IsLost(d, env, ZRef(n), a, l, depth)
    ensures IsLost(d, env, env[m], b, y, depth)
  {
    y := LostThrough(d, env, w, env[m], b, n, a, l, depth);
  }

  /** Along a path to an unsafe schema, every name loses a value. */
  lemma {:induction false} LostAlong(d: Dates, env: Env, w: Witness, path: seq<(string, bool)>, depth: nat)
    returns (x: Value, k: nat)
    requires GoodDates(d) && SelfContained(d, env, w, depth) && ModePath(env, path) && path[0].0 in w
    requires var (n, a) := path[|path| - 1]; n in env && !Survivable(env[n], a)
    ensures SelfContained(d, env, w, k) && IsLost(d, env, ZRef(path[0].0), path[0].1, x, k)
    decreases |path|
  {
    var (m, b) := path[0];
    if |path| == 1 {
      x, k := Lost(w, env[m], b), depth;
      LostHere(d, env, w, env[m], b, depth);
    } else {
      var (n, a) := path[1];
      assert Hop(env, path, 0);
      RefersIn(env[m], b, n, a, w.Keys);
      ModePathTail(env, path);
      var l;
      l, k := LostAlong(d, env, w, path[1..], depth);
      x := LostBefore(d, env, w, m, b, n, a, l, k);
    }
    LostNamed(d, env, w, m, b, x, k);
    k := k + 1;
  }

  lemma {:induction false} LeadsIn(env: Env, s: Schema, path: seq<(string, bool)>, names: set<string>, i: nat)
    requires RefsIn(s, names) && forall n :: n in names ==> n in env && RefsIn(env[n], names)
    requires ModePath(env, path) && Refers(s, false, path[0].0, path[0].1) && i < |path|
    ensures path[i].0 in names
  {
    if i == 0 {
      RefersIn(s, false, path[0].0, path[0].1, names);
    } else {
      LeadsIn(env, s, path, names, i - 1);
      var (m, b) := path[i - 1];
      assert Hop(env, path, i - 1);
      RefersIn(env[m], b, path[i].0, path[i].1, names);
    }
  }

  lemma {:induction false} LostOnTheWire(d: Dates, env: Env, s: Schema, x: Value, depth: nat)
    requires IsLost(d, env, s, false, x, depth)
    ensures !RoundTrips(d, env, s)
  {
    assert Parse(d, env, s, x, depth) == Some(x);
    assert !Survives(d, env, s, x, depth);
  }

  /** An unsafe schema, or one that leads to an unsafe one, loses some value. */
  lemma {:induction false} UnsoundLoses(d: Dates, env: Env, s: Schema, w: Witness, depth: nat)
    requires GoodDates(d) && SelfContained(d, env, w, depth) && DistinctNames(s) && RefsIn(s, w.Keys)
    requires !Sound(env, s)
    ensures !RoundTrips(d, env, s)
  {
    if !Survivable(s, false) {
      LostHere(d, env, w, s, false, depth);
      LostOnTheWire(d, env, s, Lost(w, s, false), depth);
    } else {
      var n, a :| Leads(env, s, n, a) && n in env && !Survivable(env[n], a);
      var path: seq<(string, bool)> :| LeadsBy(env, s, path, n, a);
      LeadsIn(env, s, path, w.Keys, 0);
      var l, k := LostAlong(d, env, w, path, depth);
      var x := LostThrough(d, env, w, s, false, path[0].0, path[0].1, l, k);
      LostOnTheWire(d, env, s, x, k);
    }
  }

  /**
   * Every value that a schema accepts survives the wire if and only if the schema is survivable, and so is every
   * schema that it leads to, each in the places where it is needed; as long as these accept anything at all.
   */
  lemma {:induction false} SurvivesExactly(d: Dates, env: Env, s: Schema, w: Witness, depth: nat)
    requires GoodDates(d) && SelfContained(d, env, w, depth) && DistinctNames(s) && RefsIn(s, w.Keys)
    ensures RoundTrips(d, env, s) <==> Sound(env, s)
  {
    if Sound(env, s) {
      SelfContainedNames(d, env, s, w, depth);
      SoundSurvives(d, env, s);
    } else {
      UnsoundLoses(d, env, s, w, depth);
    }
  }

  lemma {:induction false} SelfContainedNames(d: Dates, env: Env, s: Schema, w: Witness, depth: nat)
    requires SelfContained(d, env, w, depth) && DistinctNames(s) && RefsIn(s, w.Keys)
    ensures NamesDistinct(env, s)
  {
    forall n, a | Leads(env, s, n, a) && n in env
      ensures DistinctNames(env[n])
    {
      var path: seq<(string, bool)> :| LeadsBy(env, s, path, n, a);
      LeadsIn(env, s, path, w.Keys, |path| - 1);
    }
  }

  lemma {:induction false} SurvivableAbsent(s: Schema)
    requires Survivable(s, false)
    ensures Survivable(s, true)
    decreases s
  {
    match s {
      case ZNullable(inner) => SurvivableAbsent(inner);
      case _ =>
    }
  }

  /** For a whole set of schemas that refer to each other: no value is lost if and only if each one is survivable. */
  lemma {:induction false} SetSurvivesExactly(d: Dates, env: Env, w: Witness, depth: nat)
    requires GoodDates(d) && SelfContained(d, env, w, depth) && w.Keys == env.Keys
    ensures (forall n :: n in env ==> RoundTrips(d, env, ZRef(n)))
       <==> forall n :: n in env ==> Survivable(env[n], false)
  {
    forall n | n in env
      ensures RoundTrips(d, env, ZRef(n)) <==> Sound(env, ZRef(n))
      ensures Sound(env, ZRef(n)) ==> Survivable(env[n], false)
    {
      SurvivesExactly(d, env, ZRef(n), w, depth);
      LeadsFirst(env, ZRef(n), n, false);
    }
    forall n | n in env && forall m :: m in env ==> Survivable(env[m], false)
      ensures Sound(env, ZRef(n))
    {
      forall m | m in env
        ensures Survivable(env[m], true)
      {
        SurvivableAbsent(env[m]);
      }
    }
  }

  /** Schemas that accept nothing lose nothing: here every list would have to be infinite. */
  lemma {:induction false} UninhabitedExample(d: Dates)
    ensures var env := map["list" := ZObject([Field("next", ZRef("list"))])];
      var s := ZObject([Field("list", ZRef("list")), Field("n", ZNumber)]);
      RoundTrips(d, env, s) && !Survivable(s, false)
  {
    var list, field := ZObject([Field("next", ZRef("list"))]), Field("list", ZRef("list"));
    var env := map["list" := list];
    var fields := [field, Field("n", ZNumber)];
    forall v, depth
      ensures Parse(d, env, ZObject(fields), v, depth) == None
    {
      if v.Obj? {
        NoList(d, env, list, Lookup(v.props, field.name), depth);
        assert fields[0] == field;
      }
    }
    assert Field("n", ZNumber) == fields[1] && !Survivable(ZNumber, true);
  }

  lemma {:induction false} NoList(d: Dates, env: Env, list: Schema, v: Value, depth: nat)
    requires list == ZObject([Field("next", ZRef("list"))]) && env == map["list" := list]
    ensures Parse(d, env, ZRef("list"), v, depth) == None
    decreases depth
  {
    if depth > 0 && v.Obj? {
      NoList(d, env, list, Lookup(v.props, "next"), depth - 1);
      assert list.fields[0] == Field("next", ZRef("list"));
      assert ParseFields(d, env, list.fields, v.props, depth - 1) == None;
      assert Parse(d, env, list, v, depth - 1) == None;
    }
  }

  // ----- the gate's verdict against the exact one

  /** Unbounded numbers, unchecked values and optional elements: what the gate lets through unread. */
  predicate NoGaps(s: Schema, mayBeAbsent: bool)
    decreases s
  {
    match s
    case ZNumber | ZUnknown => false
    case ZNullable(inner) => NoGaps(inner, mayBeAbsent)
    case ZOptional(inner) => mayBeAbsent && NoGaps(inner, true)
    case ZArray(inner) => NoGaps(inner, false)
    case ZRecord(inner) => NoGaps(inner, true)
    case ZRecordByNumber(inner) => true
    case ZObject(fields) => forall f :: f in fields ==> NoGaps(f.schema, true)
    case _ => true
  }

  /** A schema the gate passes is survivable exactly when it has none of the three gaps. */
  lemma {:induction false} GateCleanExactly(s: Schema, absent: bool)
    requires GateClean(s)
    ensures Survivable(s, absent) <==> NoGaps(s, absent)
    decreases s
  {
    match s {
      case ZNullable(inner) => GateCleanExactly(inner, absent);
      case ZOptional(inner) => GateCleanExactly(inner, true);
      case ZArray(inner) => GateCleanExactly(inner, false);
      case ZRecord(inner) => GateCleanExactly(inner, true);
      case ZObject(fields) =>
        forall f | f in fields
          ensures Survivable(f.schema, true) <==> NoGaps(f.schema, true)
        {
          GateCleanExactly(f.schema, true);
        }
      case _ =>
    }
  }

  /** The gate reports nothing in the schema or in what it leads to. */
  ghost predicate AllClean(env: Env, s: Schema) {
    GateClean(s) && forall n, a :: Leads(env, s, n, a) && n in env ==> GateClean(env[n])
  }

  /** No gap in the schema or in what it leads to, each in the places where it is needed. */
  ghost predicate GapFree(env: Env, s: Schema) {
    NoGaps(s, false) && forall n, a :: Leads(env, s, n, a) && n in env ==> NoGaps(env[n], a)
  }

  lemma {:induction false} CleanIsSound(env: Env, s: Schema)
    requires AllClean(env, s)
    ensures Sound(env, s) <==> GapFree(env, s)
  {
    GateCleanExactly(s, false);
    forall n, a | Leads(env, s, n, a) && n in env
      ensures Survivable(env[n], a) <==> NoGaps(env[n], a)
    {
      GateCleanExactly(env[n], a);
    }
  }

  /** The gate's promise: nothing is lost where it reports nothing and there is no gap. */
  lemma {:induction false} GateMeaning(d: Dates, env: Env, s: Schema)
    requires GoodDates(d) && AllClean(env, s) && GapFree(env, s) && NamesDistinct(env, s)
    ensures RoundTrips(d, env, s)
  {
    CleanIsSound(env, s);
    SoundSurvives(d, env, s);
  }

  /** And among schemas that accept something, only there: every gap loses a value. */
  lemma {:induction false} GateMeaningExactly(d: Dates, env: Env, s: Schema, w: Witness, depth: nat)
    requires GoodDates(d) && SelfContained(d, env, w, depth) && DistinctNames(s) && RefsIn(s, w.Keys)
    requires AllClean(env, s)
    ensures RoundTrips(d, env, s) <==> GapFree(env, s)
  {
    CleanIsSound(env, s);
    SurvivesExactly(d, env, s, w, depth);
  }

  /** The gate passes `z.number()`, whose infinities come back as null and are rejected. */
  lemma {:induction false} GatePassesInfinity(d: Dates)
    requires GoodDates(d)
    ensures GateClean(ZNumber) && !RoundTrips(d, map[], ZNumber)
  {
    SurvivesExactly(d, map[], ZNumber, map[], 0);
  }
}
