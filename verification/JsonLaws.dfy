/** Printing, reading and parsing told kind by kind and element by element. */
module JsonLaws {
  import opened JsonRoundTrip
  import opened Options

  function Both<T>(a: Option<seq<T>>, b: Option<seq<T>>): Option<seq<T>> {
    if a.None? || b.None? then None else Some(a.value + b.value)
  }

  // ----- printing

  /** What is left out, what makes printing throw, and what each scalar is printed as. */
  lemma {:induction false} PrintsExactly(d: Dates, v: Value, t: string, n: real, b: bool, ms: int)
    requires !v.Arr? && !v.Obj?
    ensures Stringify(d, v) == Omitted <==> v == Undefined || v == Symbol || v == Function
    ensures Stringify(d, v) == Throws <==> v.BigInt?
    ensures Stringify(d, v) == Text(JNull) <==>
              v == Null || v == NaN || v.Infinite?
              || (v.Date? && (v.ms < -8640000000000000 || v.ms > 8640000000000000))
    ensures Stringify(d, v) == Text(JBool(b)) <==> v == Bool(b)
    ensures Stringify(d, v) == Text(JNum(n)) <==> v == Num(n)
    ensures Stringify(d, v) == Text(JStr(t)) <==>
              v == Str(t) || (v.Date? && -8640000000000000 <= v.ms <= 8640000000000000 && d.iso(v.ms) == t)
    ensures Stringify(d, v) == Text(JObj([])) <==> v == MapObject || v == SetObject || v == Promise || v == Instance
  {
  }

  /** An array is printed element by element, null for what is left out, unless printing an element throws. */
  lemma {:induction false} PrintsArray(d: Dates, vs: seq<Value>, js: seq<Json>)
    ensures Stringify(d, Arr(vs)) == Text(JArr(js)) <==>
      |js| == |vs| && forall i :: 0 <= i < |vs| ==>
        Stringify(d, vs[i]) == Text(js[i]) || (Stringify(d, vs[i]).Omitted? && js[i] == JNull)
    ensures Stringify(d, Arr(vs)) == Throws <==> exists i :: 0 <= i < |vs| && Stringify(d, vs[i]).Throws?
  {
    PrintsAll(d, vs, js);
  }

  lemma {:induction false} PrintsAll(d: Dates, vs: seq<Value>, js: seq<Json>)
    ensures StringifyAll(d, vs) == Some(js) <==>
      |js| == |vs| && forall i :: 0 <= i < |vs| ==>
        Stringify(d, vs[i]) == Text(js[i]) || (Stringify(d, vs[i]).Omitted? && js[i] == JNull)
    ensures StringifyAll(d, vs) == None <==> exists i :: 0 <= i < |vs| && Stringify(d, vs[i]).Throws?
    decreases |vs|
  {
    if vs != [] {
      PrintsAll(d, vs[1..], if js == [] then [] else js[1..]);
      assert vs == [vs[0]] + vs[1..];
      assert js != [] ==> js == [js[0]] + js[1..];
    }
  }

  function PrintedProp(d: Dates, p: Prop): Option<seq<Member>> {
    match Stringify(d, p.value)
    case Throws => None
    case Omitted => Some([])
    case Text(j) => Some([Member(p.name, j)])
  }

  /** An object is printed property by property, and one whose value is left out takes its key with it. */
  lemma {:induction false} PrintsObject(d: Dates, ps: seq<Prop>)
    ensures StringifyProps(d, ps) == if ps == [] then Some([])
            else Both(PrintedProp(d, ps[0]), StringifyProps(d, ps[1..]))
    ensures Stringify(d, Obj(ps)) == if StringifyProps(d, ps).None? then Throws
                                     else Text(JObj(StringifyProps(d, ps).value))
  {
    if ps != [] {
      EmptyFirst(StringifyProps(d, ps[1..]));
    }
  }

  // ----- reading

  lemma {:induction false} ReadsExactly(j: Json)
    ensures j == JNull ==> FromJson(j) == Null
    ensures j.JBool? ==> FromJson(j) == Bool(j.b)
    ensures j.JNum? ==> FromJson(j) == Num(j.n)
    ensures j.JStr? ==> FromJson(j) == Str(j.s)
    ensures j.JArr? ==> FromJson(j).Arr? && |FromJson(j).elems| == |j.elems|
                        && forall i :: 0 <= i < |j.elems| ==> FromJson(j).elems[i] == FromJson(j.elems[i])
    ensures j.JObj? ==> FromJson(j).Obj? && |FromJson(j).props| == |j.members|
                        && forall i :: 0 <= i < |j.members| ==>
                             FromJson(j).props[i] == Prop(j.members[i].name, FromJson(j.members[i].value))
  {
    if j.JArr? {
      ReadsAll(j.elems);
    }
    if j.JObj? {
      ReadsMembers(j.members);
    }
  }

  lemma {:induction false} ReadsAll(js: seq<Json>)
    ensures forall i :: 0 <= i < |js| ==> FromAll(js)[i] == FromJson(js[i])
    decreases |js|
  {
    if js != [] {
      ReadsAll(js[1..]);
    }
  }

  lemma {:induction false} ReadsMembers(ms: seq<Member>)
    ensures forall i :: 0 <= i < |ms| ==> FromMembers(ms)[i] == Prop(ms[i].name, FromJson(ms[i].value))
    decreases |ms|
  {
    if ms != [] {
      ReadsMembers(ms[1..]);
    }
  }

  // ----- parsing

  /** What each schema without parts takes, and what it makes of it. */
  lemma {:induction false} ParsesScalars(d: Dates, env: Env, v: Value, depth: nat)
    ensures Parse(d, env, ZString, v, depth) == if v.Str? then Some(v) else None
    ensures Parse(d, env, ZBoolean, v, depth) == if v.Bool? then Some(v) else None
    ensures Parse(d, env, ZNumber, v, depth) == if v.Num? || v.Infinite? then Some(v) else None
    ensures Parse(d, env, ZFiniteNumber, v, depth) == if v.Num? then Some(v) else None
    ensures Parse(d, env, ZUnknown, v, depth) == Some(v)
    ensures Parse(d, env, ZCoerceDate, v, depth)
         == if d.read(v).Some? then Some(Date(d.read(v).value)) else None
  {
  }

  /** Each banned schema takes the values of its kind as they stand. */
  lemma {:induction false} ParsesBanned(d: Dates, env: Env, k: Banned, v: Value, depth: nat)
    ensures Parse(d, env, ZBanned(k), v, depth) == if (k, v) in {
                (ZMap, MapObject), (ZSet, SetObject), (ZNan, NaN), (ZSymbol, Symbol), (ZFunction, Function),
                (ZPromise, Promise), (ZUndefined, Undefined), (ZVoid, Undefined), (ZInstance, Instance)
              } || (k == ZBigInt && v.BigInt?)
                || (k == ZDate && v.Date? && -8640000000000000 <= v.ms <= 8640000000000000)
            then Some(v) else None
  {
  }

  /** What the wrappers, references and records by number take. */
  lemma {:induction false} ParsesWrapped(d: Dates, env: Env, s: Schema, name: string, v: Value, depth: nat)
    ensures Parse(d, env, ZNullable(s), v, depth) == if v == Null then Some(Null) else Parse(d, env, s, v, depth)
    ensures Parse(d, env, ZOptional(s), v, depth) == if v == Undefined then Some(v) else Parse(d, env, s, v, depth)
    ensures Parse(d, env, ZRecordByNumber(s), v, depth) == if v == Obj([]) then Some(v) else None
  {
  }

  /** A reference is the schema it names, one step further down the chain of references. */
  lemma {:induction false} ParsesReference(d: Dates, env: Env, name: string, v: Value, depth: nat)
    ensures Parse(d, env, ZRef(name), v, depth)
         == if depth > 0 && name in env then Parse(d, env, env[name], v, depth - 1) else None
  {
  }

  /** An array is parsed element by element. */
  lemma {:induction false} ParsesArray(d: Dates, env: Env, s: Schema, v: Value, r: Value, depth: nat)
    ensures Parse(d, env, ZArray(s), v, depth) == Some(r) <==>
      v.Arr? && r.Arr? && |r.elems| == |v.elems|
      && forall i :: 0 <= i < |v.elems| ==> Parse(d, env, s, v.elems[i], depth) == Some(r.elems[i])
  {
    if v.Arr? && r.Arr? {
      ParsesAll(d, env, s, v.elems, r.elems, depth);
    }
  }

  lemma {:induction false} ParsesAll(d: Dates, env: Env, s: Schema, vs: seq<Value>, rs: seq<Value>, depth: nat)
    ensures ParseAll(d, env, s, vs, depth) == Some(rs) <==>
      |rs| == |vs| && forall i :: 0 <= i < |vs| ==> Parse(d, env, s, vs[i], depth) == Some(rs[i])
    decreases |vs|
  {
    if vs != [] {
      ParsesAll(d, env, s, vs[1..], if rs == [] then [] else rs[1..], depth);
      assert vs == [vs[0]] + vs[1..];
      assert rs != [] ==> rs == [rs[0]] + rs[1..];
    }
  }

  function ParsedProp(d: Dates, env: Env, s: Schema, p: Prop, depth: nat): Option<seq<Prop>> {
    if p.value == Undefined then Some([])
    else
      var w := Parse(d, env, s, p.value, depth);
      if w.None? then None else Some([Prop(p.name, w.value)])
  }

  /** A record is parsed property by property; an absent one is passed over. */
  lemma {:induction false} ParsesRecord(d: Dates, env: Env, s: Schema, v: Value, ps: seq<Prop>, depth: nat)
    ensures ParseProps(d, env, s, ps, depth) == if ps == [] then Some([])
            else Both(ParsedProp(d, env, s, ps[0], depth), ParseProps(d, env, s, ps[1..], depth))
    ensures Parse(d, env, ZRecord(s), Obj(ps), depth) ==
            if ParseProps(d, env, s, ps, depth).None? then None else Some(Obj(ParseProps(d, env, s, ps, depth).value))
    ensures !v.Obj? ==> Parse(d, env, ZRecord(s), v, depth) == None
  {
    if ps != [] {
      EmptyFirst(ParseProps(d, env, s, ps[1..], depth));
    }
  }

  lemma {:induction false} EmptyFirst<T>(r: Option<seq<T>>)
    ensures Both(Some([]), r) == r
  {
    assert r.Some? ==> [] + r.value == r.value;
  }

  ghost predicate FirstNamed(ps: seq<Prop>, name: string, i: nat) {
    i < |ps| && ps[i].name == name && forall j :: 0 <= j < i ==> ps[j].name != name
  }

  /** A property's value is that of the first one of its name, and undefined where there is none. */
  lemma {:induction false} LookupExactly(ps: seq<Prop>, name: string) returns (i: nat)
    ensures if exists p :: p in ps && p.name == name
            then FirstNamed(ps, name, i) && Lookup(ps, name) == ps[i].value
            else Lookup(ps, name) == Undefined
  {
    i := 0;
    if ps != [] && ps[0].name != name {
      i := LookupExactly(ps[1..], name);
      assert forall p :: p in ps && p.name == name ==> p in ps[1..];
      if p :| p in ps && p.name == name {
        assert forall j :: 1 <= j < i + 1 ==> ps[j] == ps[1..][j - 1];
        i := i + 1;
      }
    }
  }

  function ParsedField(d: Dates, env: Env, f: Field, ps: seq<Prop>, depth: nat): Option<seq<Prop>> {
    var w := Parse(d, env, f.schema, Lookup(ps, f.name), depth);
    if w.None? then None else if w.value == Undefined then Some([]) else Some([Prop(f.name, w.value)])
  }

  /** A strict object is parsed field by field, each on the value looked up for it; what is undefined stays absent. */
  lemma {:induction false} ParsesFields(d: Dates, env: Env, fs: seq<Field>, ps: seq<Prop>, depth: nat)
    ensures ParseFields(d, env, fs, ps, depth) == if fs == [] then Some([])
            else Both(ParsedField(d, env, fs[0], ps, depth), ParseFields(d, env, fs[1..], ps, depth))
  {
    if fs != [] {
      EmptyFirst(ParseFields(d, env, fs[1..], ps, depth));
    }
  }

  ghost predicate Foreign(ps: seq<Prop>, fs: seq<Field>) {
    exists p :: p in ps && forall f :: f in fs ==> f.name != p.name
  }

  /** A property that no field names is refused, and so is what is no object. */
  lemma {:induction false} ParsesObject(d: Dates, env: Env, fs: seq<Field>, v: Value, depth: nat)
    ensures Parse(d, env, ZObject(fs), v, depth) ==
            if !v.Obj? || Foreign(v.props, fs) || ParseFields(d, env, fs, v.props, depth).None? then None
            else Some(Obj(ParseFields(d, env, fs, v.props, depth).value))
  {
    if v.Obj? {
      ForeignExactly(v.props, fs);
    }
  }

  lemma {:induction false} ForeignExactly(ps: seq<Prop>, fs: seq<Field>)
    ensures NamedIn(ps, fs) <==> !Foreign(ps, fs)
  {
  }
}
