/** The two layers of the JSON-safety gate put together: a walk without errors means payloads survive. */
module JsonGate {
  import opened Options
  import opened JsonGateWalk
  import opened JsonRoundTrip

  const CONTRACTS := "libs/contracts/src"

  /** What the walk meets in a schema expression. */
  function NodesOf(s: Schema): seq<Node>
    decreases s, 0
  {
    match s
    case ZBanned(_) => [Unsafe(0, "z.<banned>()", false)]
    case ZRecordByNumber(inner) => [Unsafe(0, "z.record non-string key", false)] + NodesOf(inner)
    case ZRef(name) => [Mention(name)]
    case ZNullable(inner) => NodesOf(inner)
    case ZOptional(inner) => NodesOf(inner)
    case ZArray(inner) => NodesOf(inner)
    case ZRecord(inner) => NodesOf(inner)
    case ZObject(fields) => NodesOfFields(fields)
    case _ => []
  }

  function NodesOfFields(fields: seq<Field>): seq<Node>
    decreases fields, 1
  {
    if fields == [] then [] else NodesOf(fields[0].schema) + NodesOfFields(fields[1..])
  }

  /** The contracts as one file of schema constants. */
  function ProjectOf(env: Env): Project {
    map[CONTRACTS := File(map n | n in env :: NodesOf(env[n]), map[], map[], map[], [])]
  }

  function KeyOf(name: string): Key {
    Key(CONTRACTS, name)
  }

  // ----- what the nodes of a schema say

  lemma {:induction false} FieldNodes(fields: seq<Field>, i: nat)
    requires i < |fields|
    ensures forall n :: n in NodesOf(fields[i].schema) ==> n in NodesOfFields(fields)
  {
    if i > 0 {
      FieldNodes(fields[1..], i - 1);
    }
  }

  ghost predicate NoUnsafe(nodes: seq<Node>) {
    forall n :: n in nodes && n.Unsafe? ==> n.marked
  }

  lemma {:induction false} NoUnsafeIsClean(s: Schema)
    requires NoUnsafe(NodesOf(s))
    ensures GateClean(s)
    decreases s
  {
    var nodes := NodesOf(s);
    assert nodes != [] ==> nodes[0] in nodes;
    match s {
      case ZNullable(inner) => NoUnsafeIsClean(inner);
      case ZOptional(inner) => NoUnsafeIsClean(inner);
      case ZArray(inner) => NoUnsafeIsClean(inner);
      case ZRecord(inner) => NoUnsafeIsClean(inner);
      case ZObject(fields) =>
        forall f | f in fields
          ensures GateClean(f.schema)
        {
          var i :| 0 <= i < |fields| && fields[i] == f;
          FieldNodes(fields, i);
          NoUnsafeIsClean(f.schema);
        }
      case _ =>
    }
  }

  lemma {:induction false} UnsafeIsFlagged(env: Env, name: string)
    requires name in env
    ensures forall n :: n in NodesOf(env[name]) && n.Unsafe? && !n.marked ==>
      Flags(ProjectOf(env), {}, KeyOf(name), ErrorAt(CONTRACTS, n.line, n.construct))
  {
    forall n | n in NodesOf(env[name]) && n.Unsafe? && !n.marked
      ensures Flags(ProjectOf(env), {}, KeyOf(name), ErrorAt(CONTRACTS, n.line, n.construct))
    {
      assert Holds(ProjectOf(env), KeyOf(name), Unsafe(n.line, n.construct, false));
    }
  }

  /** A declaration without reported constructs is clean. */
  lemma {:induction false} UnflaggedIsClean(env: Env, name: string)
    requires name in env
    requires forall m: Mark :: m.ErrorAt? ==> !Flags(ProjectOf(env), {}, KeyOf(name), m)
    ensures GateClean(env[name])
  {
    UnsafeIsFlagged(env, name);
    NoUnsafeIsClean(env[name]);
  }

  // ----- a schema's meaning depends only on the names it can reach

  /** `part` is `env` on `names`, which refer only to each other and to names `env` does not define. */
  ghost predicate PartOf(part: Env, env: Env, names: set<string>) {
    && (forall n :: n in names && n in env ==> n in part && part[n] == env[n] && RefsIn(env[n], names))
    && (forall n :: n in names && n in part ==> n in env)
  }

  lemma {:induction false} SameMeaning(d: Dates, part: Env, env: Env, names: set<string>, s: Schema, v: Value,
                                       depth: nat)
    requires PartOf(part, env, names) && RefsIn(s, names)
    ensures Parse(d, part, s, v, depth) == Parse(d, env, s, v, depth)
    decreases depth, s, 1
  {
    match s {
      case ZNullable(inner) => SameMeaning(d, part, env, names, inner, v, depth);
      case ZOptional(inner) => SameMeaning(d, part, env, names, inner, v, depth);
      case ZArray(inner) => if v.Arr? { SameAll(d, part, env, names, inner, v.elems, depth); }
      case ZRecord(inner) => if v.Obj? { SameProps(d, part, env, names, inner, v.props, depth); }
      case ZObject(fields) => if v.Obj? { SameFields(d, part, env, names, fields, v.props, depth); }
      case ZRef(name) => if depth > 0 && name in env { SameMeaning(d, part, env, names, env[name], v, depth - 1); }
      case _ =>
    }
  }

  lemma {:induction false} SameAll(d: Dates, part: Env, env: Env, names: set<string>, s: Schema, vs: seq<Value>,
                                   depth: nat)
    requires PartOf(part, env, names) && RefsIn(s, names)
    ensures ParseAll(d, part, s, vs, depth) == ParseAll(d, env, s, vs, depth)
    decreases depth, s, 2, |vs|
  {
    if vs != [] {
      SameMeaning(d, part, env, names, s, vs[0], depth);
      SameAll(d, part, env, names, s, vs[1..], depth);
    }
  }

  lemma {:induction false} SameProps(d: Dates, part: Env, env: Env, names: set<string>, s: Schema, ps: seq<Prop>,
                                     depth: nat)
    requires PartOf(part, env, names) && RefsIn(s, names)
    ensures ParseProps(d, part, s, ps, depth) == ParseProps(d, env, s, ps, depth)
    decreases depth, s, 2, |ps|
  {
    if ps != [] {
      SameMeaning(d, part, env, names, s, ps[0].value, depth);
      SameProps(d, part, env, names, s, ps[1..], depth);
    }
  }

  lemma {:induction false} SameFields(d: Dates, part: Env, env: Env, names: set<string>, fields: seq<Field>,
                                      props: seq<Prop>, depth: nat)
    requires PartOf(part, env, names) && forall f :: f in fields ==> RefsIn(f.schema, names)
    ensures ParseFields(d, part, fields, props, depth) == ParseFields(d, env, fields, props, depth)
    decreases depth, fields, 0
  {
    if fields != [] {
      assert fields[0] in fields;
      SameMeaning(d, part, env, names, fields[0].schema, Lookup(props, fields[0].name), depth);
      SameFields(d, part, env, names, fields[1..], props, depth);
    }
  }

  // ----- the promise

  /** A schema mentions every name it refers to. */
  lemma {:induction false} RefersIsMention(s: Schema, absent: bool, name: string, a: bool)
    requires Refers(s, absent, name, a)
    ensures Mention(name) in NodesOf(s)
    decreases s
  {
    match s {
      case ZRef(_) => assert NodesOf(s)[0] == Mention(name);
      case ZNullable(inner) => RefersIsMention(inner, absent, name, a);
      case ZOptional(inner) => RefersIsMention(inner, true, name, a);
      case ZArray(inner) => RefersIsMention(inner, false, name, a);
      case ZRecord(inner) => RefersIsMention(inner, true, name, a);
      case ZObject(fields) =>
        var f :| f in fields && Refers(f.schema, true, name, a);
        var i :| 0 <= i < |fields| && fields[i] == f;
        RefersIsMention(f.schema, true, name, a);
        FieldNodes(fields, i);
    }
  }

  /** Every name that the root's schema leads to is one that the walk from the root reaches. */
  lemma {:induction false} LedIsReached(env: Env, root: string, path: seq<(string, bool)>, i: nat)
    requires root in env && "z" !in env && ModePath(env, path) && path[0].0 == root && i < |path| && path[i].0 in env
    ensures Reaches(ProjectOf(env), KeyOf(root), KeyOf(path[i].0))
  {
    var p := ProjectOf(env);
    if i == 0 {
      ReachesSelf(p, KeyOf(root));
    } else {
      var m, n := path[i - 1].0, path[i].0;
      assert Hop(env, path, i - 1);
      LedIsReached(env, root, path, i - 1);
      RefersIsMention(env[m], path[i - 1].1, n, path[i].1);
      assert Holds(p, KeyOf(m), Mention(n)) && StandsFor(p, CONTRACTS, n, KeyOf(n));
      assert Edge(p, KeyOf(m), KeyOf(n));
      ReachesOn(p, KeyOf(root), KeyOf(m), KeyOf(n));
    }
  }

  lemma {:induction false} FlagIsWanted(p: Project, root: Key, k: Key, m: Mark)
    requires Reaches(p, root, k) && Flags(p, {}, k, m)
    ensures Wanted(p, {}, {root}, m)
  {
  }

  /** The walk from the root has no error to report. */
  ghost predicate Silent(env: Env, root: string) {
    forall m: Mark :: m.ErrorAt? ==> !Wanted(ProjectOf(env), {}, {KeyOf(root)}, m)
  }

  lemma {:induction false} SilentIsClean(env: Env, root: string)
    requires root in env && "z" !in env && Silent(env, root)
    ensures AllClean(env, ZRef(root))
  {
    forall n, a | Leads(env, ZRef(root), n, a) && n in env
      ensures GateClean(env[n])
    {
      var path: seq<(string, bool)> :| LeadsBy(env, ZRef(root), path, n, a);
      LedIsReached(env, root, path, |path| - 1);
      forall m: Mark | m.ErrorAt?
        ensures !Flags(ProjectOf(env), {}, KeyOf(n), m)
      {
        if Flags(ProjectOf(env), {}, KeyOf(n), m) {
          FlagIsWanted(ProjectOf(env), KeyOf(root), KeyOf(n), m);
        }
      }
      UnflaggedIsClean(env, n);
    }
  }

  lemma {:induction false} CleanHasNoUnsafe(s: Schema)
    requires GateClean(s)
    ensures forall n :: n in NodesOf(s) ==> !n.Unsafe?
    decreases s, 0
  {
    match s {
      case ZNullable(inner) => CleanHasNoUnsafe(inner);
      case ZOptional(inner) => CleanHasNoUnsafe(inner);
      case ZArray(inner) => CleanHasNoUnsafe(inner);
      case ZRecord(inner) => CleanHasNoUnsafe(inner);
      case ZObject(fields) => CleanFieldsHaveNoUnsafe(fields);
      case _ =>
    }
  }

  lemma {:induction false} CleanFieldsHaveNoUnsafe(fields: seq<Field>)
    requires forall f :: f in fields ==> GateClean(f.schema)
    ensures forall n :: n in NodesOfFields(fields) ==> !n.Unsafe?
    decreases fields, 1
  {
    if fields != [] {
      assert fields[0] in fields;
      CleanHasNoUnsafe(fields[0].schema);
      CleanFieldsHaveNoUnsafe(fields[1..]);
    }
  }

  /** A clean schema refers to every name it mentions. */
  lemma {:induction false} MentionIsRefers(s: Schema, absent: bool, name: string) returns (a: bool)
    requires GateClean(s) && Mention(name) in NodesOf(s)
    ensures Refers(s, absent, name, a)
    decreases s, 0
  {
    match s {
      case ZRef(_) => a := absent;
      case ZNullable(inner) => a := MentionIsRefers(inner, absent, name);
      case ZOptional(inner) => a := MentionIsRefers(inner, true, name);
      case ZArray(inner) => a := MentionIsRefers(inner, false, name);
      case ZRecord(inner) => a := MentionIsRefers(inner, true, name);
      case ZObject(fields) =>
        var f: Field;
        f, a := FieldMention(fields, name);
    }
  }

  lemma {:induction false} FieldMention(fields: seq<Field>, name: string) returns (f: Field, a: bool)
    requires (forall g :: g in fields ==> GateClean(g.schema)) && Mention(name) in NodesOfFields(fields)
    ensures f in fields && Refers(f.schema, true, name, a)
    decreases fields, 1
  {
    f := fields[0];
    if Mention(name) in NodesOf(f.schema) {
      a := MentionIsRefers(f.schema, true, name);
    } else {
      f, a := FieldMention(fields[1..], name);
    }
  }

  lemma {:induction false} ReachedIsLed(env: Env, root: string, path: seq<Key>, i: nat) returns (n: string, a: bool)
    requires root in env && AllClean(env, ZRef(root))
    requires IsPath(ProjectOf(env), path) && path[0] == KeyOf(root) && i < |path|
    ensures path[i] == KeyOf(n) && n in env && Leads(env, ZRef(root), n, a)
    decreases i
  {
    if i == 0 {
      n, a := root, false;
      LeadsFirst(env, ZRef(root), n, a);
    } else {
      var p := ProjectOf(env);
      var m, b := ReachedIsLed(env, root, path, i - 1);
      assert Edge(p, path[i - 1], path[i - 1 + 1]);
      n :| Holds(p, path[i - 1], Mention(n)) && StandsFor(p, CONTRACTS, n, path[i]);
      a := MentionIsRefers(env[m], b, n);
      LeadsOn(env, ZRef(root), m, b, n, a);
    }
  }

  lemma {:induction false} CleanIsSilent(env: Env, root: string)
    requires root in env && AllClean(env, ZRef(root))
    ensures Silent(env, root)
  {
    var p := ProjectOf(env);
    forall m: Mark | m.ErrorAt?
      ensures !Wanted(p, {}, {KeyOf(root)}, m)
    {
      if Wanted(p, {}, {KeyOf(root)}, m) {
        var r, k :| r in {KeyOf(root)} && Reaches(p, r, k) && Flags(p, {}, k, m);
        var path :| IsPath(p, path) && path[0] == r && path[|path| - 1] == k;
        var n, a := ReachedIsLed(env, root, path, |path| - 1);
        CleanHasNoUnsafe(env[n]);
      }
    }
  }

  /** The walk from a root is silent if and only if no schema that the root leads to holds a banned construct. */
  lemma {:induction false} SilentExactly(env: Env, root: string)
    requires root in env && "z" !in env
    ensures Silent(env, root) <==> AllClean(env, ZRef(root))
  {
    if Silent(env, root) {
      SilentIsClean(env, root);
    }
    if AllClean(env, ZRef(root)) {
      CleanIsSilent(env, root);
    }
  }

  /**
   * If the walk from a root reports no error, every value the root's schema accepts survives the wire, as long as
   * nothing that the root leads to has one of the gate's gaps in a place where it matters.
   */
  lemma {:induction false} GatePromise(d: Dates, env: Env, root: string)
    requires GoodDates(d) && root in env && "z" !in env && Silent(env, root)
    requires GapFree(env, ZRef(root)) && NamesDistinct(env, ZRef(root))
    ensures RoundTrips(d, env, ZRef(root))
  {
    SilentIsClean(env, root);
    GateMeaning(d, env, ZRef(root));
  }

  /** Among schemas that accept something, a silent walk's promise holds if and only if there is no such gap. */
  lemma {:induction false} GatePromiseExactly(d: Dates, env: Env, root: string, w: Witness, depth: nat)
    requires GoodDates(d) && root in w && "z" !in env && Silent(env, root) && SelfContained(d, env, w, depth)
    ensures RoundTrips(d, env, ZRef(root)) <==> GapFree(env, ZRef(root))
  {
    SilentIsClean(env, root);
    GateMeaningExactly(d, env, ZRef(root), w, depth);
  }
}
