/**
 * The walk of the JSON-safety gate over a project's declarations: a depth-first search with one `visited`
 * set shared by all dispatch roots, on a graph that may be cyclic.
 */
module JsonGateWalk {
  import opened Options

  // ----- the project, as the gate's own resolver sees it

  /** A top-level name in a file. */
  datatype Key = Key(file: string, name: string)

  /** What a declaration's tree holds, in the order it is walked. `marked` stands for an inline exemption. */
  datatype Node =
    | Unsafe(line: nat, construct: string, marked: bool)
    | Doubtful(line: nat, message: string, marked: bool)
    | Mention(name: string)

  datatype File = File(
    variables: map<string, seq<Node>>,
    functions: map<string, seq<Node>>,
    aliases: map<string, seq<Node>>,
    imports: map<string, Key>,
    reexports: seq<(string, Key)>)

  type Project = map<string, File>

  predicate Declares(f: File, name: string) {
    name in f.variables || name in f.functions || name in f.aliases
  }

  /** A referenced name: a declaration of the same file first, else a contract import; never zod itself. */
  function Resolve(p: Project, file: string, name: string): Option<Key>
    requires file in p
  {
    if name == "z" then None
    else if Declares(p[file], name) then Some(Key(file, name))
    else if name in p[file].imports then Some(p[file].imports[name])
    else None
  }

  datatype Step = Report(line: nat, construct: string, marked: bool)
                | Warn(line: nat, message: string, marked: bool)
                | Visit(key: Key)

  function StepsOf(p: Project, file: string, nodes: seq<Node>): seq<Step>
    requires file in p
  {
    if nodes == [] then []
    else
      (match nodes[0]
       case Unsafe(line, construct, marked) => [Report(line, construct, marked)]
       case Doubtful(line, message, marked) => [Warn(line, message, marked)]
       case Mention(name) =>
         var k := Resolve(p, file, name);
         if k.Some? then [Visit(k.value)] else []) + StepsOf(p, file, nodes[1..])
  }

  function Reexported(reexports: seq<(string, Key)>, name: string): seq<Step> {
    if reexports == [] then []
    else (if reexports[0].0 == name then [Visit(reexports[0].1)] else []) + Reexported(reexports[1..], name)
  }

  /** A variable shadows a function, a function a type alias; a name that is none of them may be re-exported. */
  function Steps(p: Project, k: Key): seq<Step> {
    if k.file !in p then []
    else
      var f := p[k.file];
      if k.name in f.variables then StepsOf(p, k.file, f.variables[k.name])
      else if k.name in f.functions then StepsOf(p, k.file, f.functions[k.name])
      else if k.name in f.aliases then StepsOf(p, k.file, f.aliases[k.name])
      else Reexported(f.reexports, k.name)
  }

  ghost function Names(f: File): set<string> {
    f.variables.Keys + f.functions.Keys + f.aliases.Keys + set r | r in f.reexports :: r.0
  }

  /** The keys whose walk does anything: finitely many. */
  ghost function Known(p: Project): set<Key> {
    set f, n | f in p && n in Names(p[f]) :: Key(f, n)
  }

  lemma {:induction false} ReexportedNamed(reexports: seq<(string, Key)>, name: string)
    requires Reexported(reexports, name) != []
    ensures name in set r | r in reexports :: r.0
  {
    if reexports[0].0 == name {
      assert reexports[0] in reexports;
    } else {
      ReexportedNamed(reexports[1..], name);
      var r :| r in reexports[1..] && r.0 == name;
      assert r in reexports;
    }
  }

  lemma {:induction false} UnknownIsEmpty(p: Project, k: Key)
    requires Steps(p, k) != []
    ensures k in Known(p)
  {
    var f := p[k.file];
    if k.name !in f.variables && k.name !in f.functions && k.name !in f.aliases {
      ReexportedNamed(f.reexports, k.name);
    }
    assert k.name in Names(f);
    assert Key(k.file, k.name) == k;
  }

  // ----- what ought to be found

  datatype Mark = ErrorAt(file: string, line: nat, construct: string)
                | WarningAt(file: string, line: nat, message: string)

  /** The finding a step stands for; errors of exempted declarations are dropped, warnings are not. */
  function MarkOf(exempt: set<Key>, k: Key, s: Step): Option<Mark> {
    match s
    case Report(line, construct, marked) =>
      if marked || k in exempt then None else Some(ErrorAt(k.file, line, construct))
    case Warn(line, message, marked) =>
      if marked then None else Some(WarningAt(k.file, line, message))
    case Visit(_) => None
  }

  /** The declaration that `k` names holds `n`. A variable hides a function, a function a type alias. */
  ghost predicate Holds(p: Project, k: Key, n: Node) {
    && k.file in p
    && var f := p[k.file];
       || (k.name in f.variables && n in f.variables[k.name])
       || (k.name !in f.variables && k.name in f.functions && n in f.functions[k.name])
       || (k.name !in f.variables && k.name !in f.functions && k.name in f.aliases && n in f.aliases[k.name])
  }

  /** An unmarked construct of `k` makes the mark; the exemption list drops errors, but not warnings. */
  ghost predicate Flags(p: Project, exempt: set<Key>, k: Key, m: Mark) {
    match m
    case ErrorAt(file, line, construct) =>
      file == k.file && k !in exempt && Holds(p, k, Unsafe(line, construct, false))
    case WarningAt(file, line, message) =>
      file == k.file && Holds(p, k, Doubtful(line, message, false))
  }

  /** A declaration that the exemption list silenced. */
  ghost predicate Silenced(p: Project, exempt: set<Key>, k: Key) {
    k in exempt && exists line, construct :: Holds(p, k, Unsafe(line, construct, false))
  }

  /** A name mentioned in a file stands for the file's own declaration, else for what it imports; `z` for none. */
  ghost predicate StandsFor(p: Project, file: string, name: string, b: Key) {
    && file in p && name != "z"
    && var f := p[file];
       if name in f.variables.Keys + f.functions.Keys + f.aliases.Keys then b == Key(file, name)
       else name in f.imports && b == f.imports[name]
  }

  ghost predicate Declared(p: Project, k: Key) {
    k.file in p && k.name in p[k.file].variables.Keys + p[k.file].functions.Keys + p[k.file].aliases.Keys
  }

  /** A declaration leads to what the names in it stand for, an undeclared name to its re-exports. */
  ghost predicate Edge(p: Project, a: Key, b: Key) {
    || (exists name :: Holds(p, a, Mention(name)) && StandsFor(p, a.file, name, b))
    || (a.file in p && !Declared(p, a) && (a.name, b) in p[a.file].reexports)
  }

  // The steps of the walk are these relations.

  lemma {:induction false} StepsOfHolds(p: Project, file: string, nodes: seq<Node>, s: Step)
    requires file in p
    ensures s in StepsOf(p, file, nodes) <==> exists n :: n in nodes && StepFor(p, file, n, s)
    decreases |nodes|
  {
    if nodes != [] {
      StepsOfHolds(p, file, nodes[1..], s);
      if StepFor(p, file, nodes[0], s) {
        assert nodes[0] in nodes;
      } else if exists n :: n in nodes && StepFor(p, file, n, s) {
        var n :| n in nodes && StepFor(p, file, n, s);
        assert n in nodes[1..];
      }
    }
  }

  ghost predicate StepFor(p: Project, file: string, n: Node, s: Step) {
    match n
    case Unsafe(line, construct, marked) => s == Report(line, construct, marked)
    case Doubtful(line, message, marked) => s == Warn(line, message, marked)
    case Mention(name) => s.Visit? && StandsFor(p, file, name, s.key)
  }

  lemma {:induction false} ReexportedHolds(reexports: seq<(string, Key)>, name: string, s: Step)
    ensures s in Reexported(reexports, name) <==> s.Visit? && (name, s.key) in reexports
    decreases |reexports|
  {
    if reexports != [] {
      ReexportedHolds(reexports[1..], name, s);
    }
  }

  /** The steps of a key are those its nodes ask for, and the visits to its re-exports if it is not declared. */
  lemma {:induction false} StepsExactly(p: Project, k: Key, s: Step)
    ensures s in Steps(p, k)
       <==> || (exists n :: Holds(p, k, n) && StepFor(p, k.file, n, s))
            || (k.file in p && !Declared(p, k) && s.Visit? && (k.name, s.key) in p[k.file].reexports)
  {
    if k.file in p {
      var f := p[k.file];
      if k.name in f.variables {
        StepsOfHolds(p, k.file, f.variables[k.name], s);
      } else if k.name in f.functions {
        StepsOfHolds(p, k.file, f.functions[k.name], s);
      } else if k.name in f.aliases {
        StepsOfHolds(p, k.file, f.aliases[k.name], s);
      } else {
        ReexportedHolds(f.reexports, k.name, s);
      }
    }
  }

  lemma {:induction false} EdgeExactly(p: Project, a: Key, b: Key)
    ensures Edge(p, a, b) <==> Visit(b) in Steps(p, a)
  {
    StepsExactly(p, a, Visit(b));
    forall n | Holds(p, a, n) && StepFor(p, a.file, n, Visit(b))
      ensures Edge(p, a, b)
    {
      assert n == Mention(n.name);
    }
    forall name | Holds(p, a, Mention(name)) && StandsFor(p, a.file, name, b)
      ensures StepFor(p, a.file, Mention(name), Visit(b))
    {
    }
  }

  lemma {:induction false} ReportExactly(p: Project, k: Key, line: nat, construct: string, marked: bool)
    ensures Report(line, construct, marked) in Steps(p, k) <==> Holds(p, k, Unsafe(line, construct, marked))
  {
    var s := Report(line, construct, marked);
    StepsExactly(p, k, s);
    assert StepFor(p, k.file, Unsafe(line, construct, marked), s);
    forall n | StepFor(p, k.file, n, s)
      ensures n == Unsafe(line, construct, marked)
    {
    }
  }

  lemma {:induction false} WarnExactly(p: Project, k: Key, line: nat, message: string, marked: bool)
    ensures Warn(line, message, marked) in Steps(p, k) <==> Holds(p, k, Doubtful(line, message, marked))
  {
    var s := Warn(line, message, marked);
    StepsExactly(p, k, s);
    assert StepFor(p, k.file, Doubtful(line, message, marked), s);
    forall n | StepFor(p, k.file, n, s)
      ensures n == Doubtful(line, message, marked)
    {
    }
  }

  lemma {:induction false} FlagsBy(p: Project, exempt: set<Key>, k: Key, m: Mark, s: Step)
    requires s in Steps(p, k) && MarkOf(exempt, k, s) == Some(m)
    ensures Flags(p, exempt, k, m)
  {
    match s
    case Report(line, construct, marked) => ReportExactly(p, k, line, construct, marked);
    case Warn(line, message, marked) => WarnExactly(p, k, line, message, marked);
    case Visit(_) =>
  }

  lemma {:induction false} FlagStep(p: Project, exempt: set<Key>, k: Key, m: Mark) returns (s: Step)
    requires Flags(p, exempt, k, m)
    ensures s in Steps(p, k) && MarkOf(exempt, k, s) == Some(m)
  {
    match m
    case ErrorAt(_, line, construct) =>
      s := Report(line, construct, false);
      ReportExactly(p, k, line, construct, false);
    case WarningAt(_, line, message) =>
      s := Warn(line, message, false);
      WarnExactly(p, k, line, message, false);
  }

  ghost predicate IsPath(p: Project, path: seq<Key>) {
    path != [] && forall i :: 0 <= i < |path| - 1 ==> Edge(p, path[i], path[i + 1])
  }

  ghost predicate Reaches(p: Project, a: Key, b: Key) {
    exists path :: IsPath(p, path) && path[0] == a && path[|path| - 1] == b
  }

  lemma {:induction false} ReachesSelf(p: Project, a: Key)
    ensures Reaches(p, a, a)
  {
    assert IsPath(p, [a]) && [a][0] == a;
  }

  lemma {:induction false} ReachesOn(p: Project, a: Key, b: Key, c: Key)
    requires Reaches(p, a, b) && Edge(p, b, c)
    ensures Reaches(p, a, c)
  {
    var path :| IsPath(p, path) && path[0] == a && path[|path| - 1] == b;
    var longer := path + [c];
    assert IsPath(p, longer) && longer[0] == a && longer[|longer| - 1] == c;
  }

  ghost predicate Closed(p: Project, s: set<Key>) {
    forall k, b :: k in s && Edge(p, k, b) ==> b in s
  }

  lemma {:induction false} ClosedHoldsReached(p: Project, s: set<Key>, path: seq<Key>)
    requires Closed(p, s) && IsPath(p, path) && path[0] in s
    ensures path[|path| - 1] in s
    decreases |path|
  {
    if |path| > 1 {
      assert Edge(p, path[0], path[1]);
      forall i | 0 <= i < |path[1..]| - 1
        ensures Edge(p, path[1..][i], path[1..][i + 1])
      {
        assert Edge(p, path[i + 1], path[i + 1 + 1]);
      }
      ClosedHoldsReached(p, s, path[1..]);
    }
  }

  // ----- how far a walk has come

  /** The sets of a walk: declarations entered, findings made, exemptions used. */
  datatype Progress = Progress(visited: set<Key>, seen: set<Mark>, exempted: set<Key>)

  ghost predicate Within(w: Progress, w': Progress) {
    w.visited <= w'.visited && w.seen <= w'.seen && w.exempted <= w'.exempted
  }

  ghost predicate Taken(p: Project, exempt: set<Key>, w: Progress, k: Key, s: Step) {
    && (s.Visit? ==> s.key in w.visited)
    && (MarkOf(exempt, k, s).Some? ==> MarkOf(exempt, k, s).value in w.seen)
    && (s.Report? && !s.marked && k in exempt ==> k in w.exempted)
  }

  /** The first `n` steps of `k` have been taken. */
  ghost predicate Done(p: Project, exempt: set<Key>, w: Progress, k: Key, n: nat) {
    n <= |Steps(p, k)| && forall i :: 0 <= i < n ==> Taken(p, exempt, w, k, Steps(p, k)[i])
  }

  ghost predicate Complete(p: Project, exempt: set<Key>, w: Progress, k: Key) {
    Done(p, exempt, w, k, |Steps(p, k)|)
  }

  /** Outside the declarations still being walked, everything visited is complete. */
  ghost predicate Finished(p: Project, exempt: set<Key>, w: Progress, open: set<Key>) {
    open <= w.visited && forall k :: k in w.visited && k !in open ==> Complete(p, exempt, w, k)
  }

  lemma {:induction false} DoneStays(p: Project, exempt: set<Key>, w: Progress, w': Progress, k: Key, n: nat)
    requires Done(p, exempt, w, k, n) && Within(w, w')
    ensures Done(p, exempt, w', k, n)
  {
    forall i | 0 <= i < n
      ensures Taken(p, exempt, w', k, Steps(p, k)[i])
    {
      assert Taken(p, exempt, w, k, Steps(p, k)[i]);
    }
  }

  lemma {:induction false} DoneNext(p: Project, exempt: set<Key>, w: Progress, w': Progress, k: Key, i: nat,
                                    start: Progress)
    requires Done(p, exempt, w, k, i) && Within(w, w') && Within(start, w)
    requires i < |Steps(p, k)| && Taken(p, exempt, w', k, Steps(p, k)[i])
    ensures Done(p, exempt, w', k, i + 1) && Within(start, w')
  {
    DoneStays(p, exempt, w, w', k, i);
  }

  /** Progress keeps what is finished, if it enters no new declaration but those now open. */
  lemma {:induction false} FinishedStays(p: Project, exempt: set<Key>, w: Progress, w': Progress,
                                         open: set<Key>, open': set<Key>)
    requires Finished(p, exempt, w, open) && Within(w, w') && open <= open'
    requires w'.visited <= w.visited + open' && open' <= w'.visited
    ensures Finished(p, exempt, w', open')
  {
    forall k | k in w'.visited && k !in open'
      ensures Complete(p, exempt, w', k)
    {
      assert Complete(p, exempt, w, k);
      DoneStays(p, exempt, w, w', k, |Steps(p, k)|);
    }
  }

  lemma {:induction false} Close(p: Project, exempt: set<Key>, w: Progress, k: Key, open: set<Key>)
    requires Finished(p, exempt, w, open + {k}) && Complete(p, exempt, w, k)
    ensures Finished(p, exempt, w, open)
  {
  }

  // ----- the walk

  datatype Root = Root(key: Key, via: string)

  datatype Entry = Entry(mark: Mark, schema: string, root: Root)

  class WalkCtx {
    const project: Project
    const exempt: set<Key>
    var visited: set<Key>
    var seen: set<Mark>
    var errors: seq<Entry>
    var warnings: seq<Entry>
    var exempted: set<Key>
    var root: Option<Root>
    ghost var started: set<Root>  // the roots walked so far

    constructor (project: Project, exempt: set<Key>)
      ensures this.project == project && this.exempt == exempt
      ensures Now() == Progress({}, {}, {}) && started == {} && Valid({})
    {
      this.project, this.exempt, root, started := project, exempt, None, {};
      visited, seen, errors, warnings, exempted := {}, {}, [], [], {};
    }

    ghost function Now(): Progress
      reads this
    {
      Progress(visited, seen, exempted)
    }

    /** The lists match `seen`, every entry is justified, and all but `open` is finished. */
    ghost predicate Valid(open: set<Key>)
      reads this
    {
      && Matches(seen, errors, warnings)
      && AllJustified(project, exempt, started, errors)
      && AllJustified(project, exempt, started, warnings)
      && (forall k :: k in exempted ==> UsesExemption(project, exempt, KeysIn(started), k))
      && Finished(project, exempt, Now(), open)
    }

    /** The root being walked is known and reaches `k`. */
    ghost predicate Rooted(k: Key)
      reads this
    {
      root.Some? && root.value in started && Reaches(project, root.value.key, k)
    }

    /** Walk from the next dispatch root. */
    method WalkRoot(r: Root)
      requires Valid({})
      modifies this
      ensures Valid({}) && started == old(started) + {r}
      ensures old(visited) <= visited && r.key in visited
    {
      root, started := Some(r), started + {r};
      MoreStarted(project, exempt, old(started), started, errors);
      MoreStarted(project, exempt, old(started), started, warnings);
      ReachesSelf(project, r.key);
      WalkNamedDecl(r.key, {}, Known(project) - visited);
    }

    method ReportError(k: Key, s: Step, ghost open: set<Key>)
      requires Valid(open) && s in Steps(project, k) && s.Report? && Rooted(k)
      modifies this`seen, this`errors, this`exempted
      ensures Valid(open) && Within(old(Now()), Now()) && Taken(project, exempt, Now(), k, s)
    {
      if s.marked { return; }
      ghost var was := Now();
      if k in exempt {
        ReportExactly(project, k, s.line, s.construct, false);
        exempted := exempted + {k};
      } else {
        var mark := ErrorAt(k.file, s.line, s.construct);
        assert MarkOf(exempt, k, s) == Some(mark);
        if mark in seen { return; }
        var e := Entry(mark, k.name, root.value);
        JustifiedAdd(project, exempt, started, errors, e, k, s);
        MarksAdd(errors, e);
        seen := seen + {mark};
        errors := errors + [e];
      }
      FinishedStays(project, exempt, was, Now(), open, open);
    }

    method ReportWarning(k: Key, s: Step, ghost open: set<Key>)
      requires Valid(open) && s in Steps(project, k) && s.Warn? && Rooted(k)
      modifies this`seen, this`warnings
      ensures Valid(open) && Within(old(Now()), Now()) && Taken(project, exempt, Now(), k, s)
    {
      if s.marked { return; }
      ghost var was := Now();
      var mark := WarningAt(k.file, s.line, s.message);
      assert MarkOf(exempt, k, s) == Some(mark);
      if mark in seen { return; }
      var e := Entry(mark, k.name, root.value);
      JustifiedAdd(project, exempt, started, warnings, e, k, s);
      MarksAdd(warnings, e);
      seen := seen + {mark};
      warnings := warnings + [e];
      FinishedStays(project, exempt, was, Now(), open, open);
    }

    /** Everything `k` leads to is walked, except what an enclosing walk has already entered. */
    method WalkNamedDecl(k: Key, ghost open: set<Key>, ghost left: set<Key>)
      requires Valid(open) && Rooted(k) && Known(project) - visited <= left
      modifies this`visited, this`seen, this`errors, this`warnings, this`exempted
      ensures Valid(open) && Within(old(Now()), Now()) && k in visited
      decreases left, 0
    {
      if k in visited { return; }
      ghost var was := Now();
      visited := visited + {k};
      FinishedStays(project, exempt, was, Now(), open, open + {k});
      var steps := Steps(project, k);
      if steps != [] {
        UnknownIsEmpty(project, k);
        WalkSteps(k, steps, open, left - {k});
      }
    }

    method WalkSteps(k: Key, steps: seq<Step>, ghost open: set<Key>, ghost left: set<Key>)
      requires Known(project) - visited <= left
      requires Valid(open + {k}) && k !in open && steps == Steps(project, k) && Rooted(k)
      modifies this`visited, this`seen, this`errors, this`warnings, this`exempted
      ensures Valid(open) && Within(old(Now()), Now())
      decreases left, 2
    {
      ghost var start := Now();
      for i := 0 to |steps|
        invariant Valid(open + {k}) && Within(start, Now()) && Done(project, exempt, Now(), k, i)
      {
        ghost var was := Now();
        WalkStep(k, steps[i], open + {k}, left);
        DoneNext(project, exempt, was, Now(), k, i, start);
      }
      Close(project, exempt, Now(), k, open);
    }

    method WalkStep(k: Key, s: Step, ghost open: set<Key>, ghost left: set<Key>)
      requires Known(project) - visited <= left
      requires Valid(open) && s in Steps(project, k) && Rooted(k)
      modifies this`visited, this`seen, this`errors, this`warnings, this`exempted
      ensures Valid(open) && Within(old(Now()), Now()) && Taken(project, exempt, Now(), k, s)
      decreases left, 1
    {
      if s.Visit? {
        EdgeExactly(project, k, s.key);
        ReachesOn(project, root.value.key, k, s.key);
        WalkNamedDecl(s.key, open, left);
      } else if s.Report? {
        ReportError(k, s, open);
      } else {
        ReportWarning(k, s, open);
      }
    }
  }

  /** What the gate is asked to report: every unmarked construct of a declaration some root reaches. */
  ghost predicate Wanted(p: Project, exempt: set<Key>, roots: set<Key>, m: Mark) {
    exists r, k :: r in roots && Reaches(p, r, k) && Flags(p, exempt, k, m)
  }

  ghost predicate UsesExemption(p: Project, exempt: set<Key>, roots: set<Key>, k: Key) {
    exists r :: r in roots && Reaches(p, r, k) && Silenced(p, exempt, k)
  }

  ghost function MarksOf(entries: seq<Entry>): set<Mark> {
    set e | e in entries :: e.mark
  }

  ghost predicate EachOnce(entries: seq<Entry>) {
    forall i, j :: 0 <= i < j < |entries| ==> entries[i].mark != entries[j].mark
  }

  /** `seen` is exactly what the two lists hold, each mark once. */
  ghost predicate Matches(seen: set<Mark>, errors: seq<Entry>, warnings: seq<Entry>) {
    && seen == MarksOf(errors) + MarksOf(warnings)
    && EachOnce(errors) && EachOnce(warnings)
    && (forall m :: m in MarksOf(errors) ==> m.ErrorAt?)
    && (forall m :: m in MarksOf(warnings) ==> m.WarningAt?)
  }

  lemma {:induction false} MarksAdd(entries: seq<Entry>, e: Entry)
    requires EachOnce(entries) && e.mark !in MarksOf(entries)
    ensures MarksOf(entries + [e]) == MarksOf(entries) + {e.mark} && EachOnce(entries + [e])
  {
    assert e in entries + [e];
    forall x | x in entries
      ensures x in entries + [e] && x.mark in MarksOf(entries)
    {
    }
  }

  /** Every finding is stamped with a root that reaches the declaration it names. */
  ghost predicate AllJustified(p: Project, exempt: set<Key>, started: set<Root>, entries: seq<Entry>) {
    forall e :: e in entries ==> Justified(p, exempt, started, e)
  }

  ghost predicate Justified(p: Project, exempt: set<Key>, started: set<Root>, e: Entry) {
    && e.root in started
    && exists k :: Reaches(p, e.root.key, k) && Flags(p, exempt, k, e.mark) && e.schema == k.name
  }

  lemma {:induction false} JustifiedAdd(p: Project, exempt: set<Key>, started: set<Root>, entries: seq<Entry>,
                                        e: Entry, k: Key, s: Step)
    requires AllJustified(p, exempt, started, entries)
    requires e.root in started && Reaches(p, e.root.key, k) && e.schema == k.name
    requires s in Steps(p, k) && MarkOf(exempt, k, s) == Some(e.mark)
    ensures AllJustified(p, exempt, started, entries + [e])
  {
    FlagsBy(p, exempt, k, e.mark, s);
  }

  lemma {:induction false} MoreStarted(p: Project, exempt: set<Key>, started: set<Root>, started': set<Root>,
                                       entries: seq<Entry>)
    requires AllJustified(p, exempt, started, entries) && started <= started'
    ensures AllJustified(p, exempt, started', entries)
  {
  }

  // ----- the whole gate

  ghost function KeysIn(roots: set<Root>): set<Key> {
    set r | r in roots :: r.key
  }

  ghost function KeysOf(roots: seq<Root>): set<Key> {
    set r | r in roots :: r.key
  }

  /** The first root given for its contract. */
  ghost predicate Leading(roots: seq<Root>, r: Root) {
    exists i :: 0 <= i < |roots| && roots[i] == r && forall j :: 0 <= j < i ==> roots[j].key != r.key
  }

  ghost function LeadingRoots(roots: seq<Root>): set<Root> {
    set r | r in roots && Leading(roots, r)
  }

  /** A closed set that holds the roots holds everything they reach. */
  lemma {:induction false} ReachedIsVisited(p: Project, s: set<Key>, a: Key, b: Key)
    requires Closed(p, s) && a in s && Reaches(p, a, b)
    ensures b in s
  {
    var path :| IsPath(p, path) && path[0] == a && path[|path| - 1] == b;
    ClosedHoldsReached(p, s, path);
  }

  lemma {:induction false} FinishedIsClosed(p: Project, exempt: set<Key>, w: Progress)
    requires Finished(p, exempt, w, {})
    ensures Closed(p, w.visited)
  {
    forall k, b | k in w.visited && Edge(p, k, b)
      ensures b in w.visited
    {
      assert Complete(p, exempt, w, k);
      EdgeExactly(p, k, b);
      var i :| 0 <= i < |Steps(p, k)| && Steps(p, k)[i] == Visit(b);
      assert Taken(p, exempt, w, k, Steps(p, k)[i]);
    }
  }

  /** Nothing is missed: a finished walk that entered every root has seen every wanted mark. */
  lemma {:induction false} NothingMissed(p: Project, exempt: set<Key>, w: Progress, roots: set<Key>)
    requires Finished(p, exempt, w, {}) && roots <= w.visited
    ensures forall m :: Wanted(p, exempt, roots, m) ==> m in w.seen
    ensures forall k :: UsesExemption(p, exempt, roots, k) ==> k in w.exempted
  {
    FinishedIsClosed(p, exempt, w);
    forall m | Wanted(p, exempt, roots, m)
      ensures m in w.seen
    {
      var r, k :| r in roots && Reaches(p, r, k) && Flags(p, exempt, k, m);
      ReachedIsVisited(p, w.visited, r, k);
      assert Complete(p, exempt, w, k);
      var s := FlagStep(p, exempt, k, m);
      var i :| 0 <= i < |Steps(p, k)| && Steps(p, k)[i] == s;
      assert Taken(p, exempt, w, k, Steps(p, k)[i]);
    }
    forall k | UsesExemption(p, exempt, roots, k)
      ensures k in w.exempted
    {
      var r :| r in roots && Reaches(p, r, k) && Silenced(p, exempt, k);
      ReachedIsVisited(p, w.visited, r, k);
      assert Complete(p, exempt, w, k);
      var line, construct :| Holds(p, k, Unsafe(line, construct, false));
      ReportExactly(p, k, line, construct, false);
      var i :| 0 <= i < |Steps(p, k)| && Steps(p, k)[i] == Report(line, construct, false);
      assert Taken(p, exempt, w, k, Steps(p, k)[i]);
    }
  }

  /** Roots with the same contract are walked once; the first one's description is kept. */
  function Distinct(roots: seq<Root>, taken: set<Key>): seq<Root> {
    if roots == [] then []
    else if roots[0].key in taken then Distinct(roots[1..], taken)
    else [roots[0]] + Distinct(roots[1..], taken + {roots[0].key})
  }

  lemma {:induction false} DistinctLeads(roots: seq<Root>, taken: set<Key>, r: Root)
    ensures r in Distinct(roots, taken) <==> Leading(roots, r) && r.key !in taken
    decreases |roots|
  {
    if roots != [] {
      var first, rest := roots[0], roots[1..];
      DistinctLeads(rest, if first.key in taken then taken else taken + {first.key}, r);
      if Leading(roots, r) && r != first {
        var i :| 0 <= i < |roots| && roots[i] == r && forall j :: 0 <= j < i ==> roots[j].key != r.key;
        assert rest[i - 1] == r && forall j :: 0 <= j < i - 1 ==> rest[j] == roots[j + 1];
        assert Leading(rest, r) && roots[0].key != r.key;
      }
      if Leading(rest, r) && r.key != first.key {
        var i :| 0 <= i < |rest| && rest[i] == r && forall j :: 0 <= j < i ==> rest[j].key != r.key;
        assert roots[i + 1] == r && forall j :: 1 <= j < i + 1 ==> roots[j] == rest[j - 1];
      }
      if r == first {
        assert roots[0] == r;
      }
    }
  }

  lemma {:induction false} LeadingKeys(roots: seq<Root>)
    ensures KeysIn(LeadingRoots(roots)) == KeysOf(roots)
  {
    forall k | k in KeysOf(roots)
      ensures k in KeysIn(LeadingRoots(roots))
    {
      var r :| r in roots && r.key == k;
      var i :| 0 <= i < |roots| && roots[i] == r;
      var f := FirstWith(roots, k, i);
      assert Leading(roots, roots[f]) && roots[f] in LeadingRoots(roots);
    }
  }

  lemma {:induction false} FirstWith(roots: seq<Root>, k: Key, i: nat) returns (f: nat)
    requires i < |roots| && roots[i].key == k
    ensures f < |roots| && roots[f].key == k && forall j :: 0 <= j < f ==> roots[j].key != k
    decreases i
  {
    if j: nat :| j < i && roots[j].key == k {
      f := FirstWith(roots, k, j);
    } else {
      f := i;
    }
  }

  /**
   * The errors and warnings are exactly the wanted marks, once each; every entry names a root that reaches
   * its declaration. The sets depend on which contracts are roots, not on the order they are walked in.
   */
  method FindJsonUnsafeViolations(p: Project, exempt: set<Key>, roots: seq<Root>)
    returns (errors: seq<Entry>, warnings: seq<Entry>, exempted: set<Key>)
    ensures forall m :: (m in MarksOf(errors) <==> m.ErrorAt? && Wanted(p, exempt, KeysOf(roots), m))
    ensures forall m :: (m in MarksOf(warnings) <==> m.WarningAt? && Wanted(p, exempt, KeysOf(roots), m))
    ensures EachOnce(errors) && EachOnce(warnings)
    ensures AllJustified(p, exempt, LeadingRoots(roots), errors)
    ensures AllJustified(p, exempt, LeadingRoots(roots), warnings)
    ensures forall k :: k in exempted <==> UsesExemption(p, exempt, KeysOf(roots), k)
  {
    var todo := Distinct(roots, {});
    var ctx := new WalkCtx(p, exempt);
    for i := 0 to |todo|
      invariant ctx.Valid({}) && fresh(ctx) && ctx.project == p && ctx.exempt == exempt
      invariant ctx.started == (set r | r in todo[..i]) && KeysIn(ctx.started) <= ctx.visited
    {
      assert todo[..i + 1] == todo[..i] + [todo[i]];
      ctx.WalkRoot(todo[i]);
    }
    assert todo[..|todo|] == todo;
    StartedLeading(roots, ctx.started);
    NothingMissed(p, exempt, ctx.Now(), KeysIn(ctx.started));
    NothingInvented(p, exempt, ctx.started, ctx.errors);
    NothingInvented(p, exempt, ctx.started, ctx.warnings);
    errors, warnings, exempted := ctx.errors, ctx.warnings, ctx.exempted;
  }

  lemma {:induction false} StartedLeading(roots: seq<Root>, started: set<Root>)
    requires started == set r | r in Distinct(roots, {})
    ensures started == LeadingRoots(roots) && KeysIn(started) == KeysOf(roots)
  {
    forall r
      ensures r in started <==> r in LeadingRoots(roots)
    {
      DistinctLeads(roots, {}, r);
    }
    LeadingKeys(roots);
  }

  lemma {:induction false} NothingInvented(p: Project, exempt: set<Key>, started: set<Root>, entries: seq<Entry>)
    requires AllJustified(p, exempt, started, entries)
    ensures forall m :: m in MarksOf(entries) ==> Wanted(p, exempt, KeysIn(started), m)
  {
  }
}
