/** Classification and routing of changed files, with each failing file set aside on its own. */
module ClassifyFiles {
  import opened Options

  datatype Classification = Classification(path: string, isGenerated: bool, isBinary: bool, magikaLabel: string,
                                           language: Option<string>)

  datatype Bucket = Review | Sandbox | Skip

  const SANDBOX_LANGUAGES: set<string> := {"javascript", "typescript", "python", "go"}

  /** Skipping excludes every other bucket, and whatever is not skipped is reviewed. */
  function DecideRoute(c: Classification): (r: set<Bucket>)
    ensures Skip in r ==> r == {Skip}
    ensures Skip !in r <==> Review in r
    ensures Sandbox in r ==> Review in r
  {
    if c.isGenerated then {Skip}
    else if c.isBinary then {Skip}
    else if c.magikaLabel == "empty" then {Skip}
    else if c.language.Some? && c.language.value in SANDBOX_LANGUAGES then {Review, Sandbox}
    else {Review}
  }

  predicate Excluded(c: Classification) {
    c.isGenerated || c.isBinary || c.magikaLabel == "empty"
  }

  /** Generated, binary and empty files are skipped, the rest is reviewed, and four languages go to the sandbox too. */
  lemma {:induction false} DecideExactly(c: Classification)
    ensures Skip in DecideRoute(c) <==> Excluded(c)
    ensures Review in DecideRoute(c) <==> !Excluded(c)
    ensures Sandbox in DecideRoute(c) <==>
      !Excluded(c) && (c.language == Some("javascript") || c.language == Some("typescript")
                       || c.language == Some("python") || c.language == Some("go"))
  {
  }

  /** The workspace and the classifier; `None` where either throws. */
  datatype Env = Env(read: string -> Option<seq<bv8>>, classify: (string, seq<bv8>) -> Option<Classification>)

  datatype Routing = Routing(review: seq<string>, sandbox: seq<string>, skip: seq<string>,
                             classifications: seq<Classification>, failures: seq<string>)

  function Outcome(env: Env, path: string): Option<Classification> {
    var body := env.read(path);
    if body.None? then None else env.classify(path, body.value)
  }

  predicate Routed(env: Env, path: string, b: Bucket) {
    Outcome(env, path).Some? && b in DecideRoute(Outcome(env, path).value)
  }

  function In(env: Env, b: Bucket): string -> bool {
    path => Routed(env, path, b)
  }

  function Fails(env: Env): string -> bool {
    path => Outcome(env, path).None?
  }

  // ----- what the routing is

  /** The elements satisfying `p`, in their order. */
  function Filter<T>(p: T -> bool, xs: seq<T>): seq<T> {
    if xs == [] then []
    else Filter(p, xs[..|xs| - 1]) + if p(xs[|xs| - 1]) then [xs[|xs| - 1]] else []
  }

  function Classified(env: Env, files: seq<string>): seq<Classification> {
    if files == [] then []
    else
      var last := Outcome(env, files[|files| - 1]);
      Classified(env, files[..|files| - 1]) + if last.Some? then [last.value] else []
  }

  function Route(env: Env, files: seq<string>): Routing {
    Routing(Filter(In(env, Review), files),
            Filter(In(env, Sandbox), files),
            Filter(In(env, Skip), files),
            Classified(env, files),
            Filter(Fails(env), files))
  }

  method DoClassify(env: Env, files: seq<string>) returns (r: Routing)
    ensures r == Route(env, files)
  {
    var review, sandbox, skip, classifications, failures := [], [], [], [], [];
    for i := 0 to |files|
      invariant Routing(review, sandbox, skip, classifications, failures) == Route(env, files[..i])
    {
      var relative := files[i];
      assert files[..i + 1][..i] == files[..i];
      var body := env.read(relative);
      if body.None? {
        failures := failures + [relative];
        continue;
      }
      var cls := env.classify(relative, body.value);
      if cls.None? {
        failures := failures + [relative];
        continue;
      }
      classifications := classifications + [cls.value];
      var decision := DecideRoute(cls.value);
      if Skip in decision {
        skip := skip + [relative];
      } else {
        if Review in decision { review := review + [relative]; }
        if Sandbox in decision { sandbox := sandbox + [relative]; }
      }
    }
    assert files[..|files|] == files;
    return Routing(review, sandbox, skip, classifications, failures);
  }

  // ----- isolation

  function Joined(a: Routing, b: Routing): Routing {
    Routing(a.review + b.review, a.sandbox + b.sandbox, a.skip + b.skip,
            a.classifications + b.classifications, a.failures + b.failures)
  }

  lemma {:induction false} FilterConcat<T>(p: T -> bool, a: seq<T>, b: seq<T>)
    ensures Filter(p, a + b) == Filter(p, a) + Filter(p, b)
  {
    if b == [] {
      assert a + b == a;
    } else {
      assert (a + b)[..|a + b| - 1] == a + b[..|b| - 1];
      FilterConcat(p, a, b[..|b| - 1]);
    }
  }

  lemma {:induction false} ClassifiedConcat(env: Env, a: seq<string>, b: seq<string>)
    ensures Classified(env, a + b) == Classified(env, a) + Classified(env, b)
  {
    if b == [] {
      assert a + b == a;
    } else {
      assert (a + b)[..|a + b| - 1] == a + b[..|b| - 1];
      ClassifiedConcat(env, a, b[..|b| - 1]);
    }
  }

  /** No file's routing depends on the files around it. */
  lemma {:induction false} RouteConcat(env: Env, a: seq<string>, b: seq<string>)
    ensures Route(env, a + b) == Joined(Route(env, a), Route(env, b))
  {
    FilterConcat(In(env, Review), a, b);
    FilterConcat(In(env, Sandbox), a, b);
    FilterConcat(In(env, Skip), a, b);
    FilterConcat(Fails(env), a, b);
    ClassifiedConcat(env, a, b);
  }

  lemma {:induction false} FilterOne<T>(p: T -> bool, x: T)
    ensures Filter(p, [x]) == if p(x) then [x] else []
  {
    assert [x][..0] == [];
    assert Filter(p, [x]) == Filter(p, [x][..0]) + if p(x) then [x] else [];
  }

  lemma {:induction false} RouteOne(env: Env, path: string)
    requires Outcome(env, path).None?
    ensures Route(env, [path]) == Routing([], [], [], [], [path])
  {
    FilterOne(In(env, Review), path);
    FilterOne(In(env, Sandbox), path);
    FilterOne(In(env, Skip), path);
    FilterOne(Fails(env), path);
    assert [path][..0] == [];
    assert Classified(env, [path]) == Classified(env, [path][..0]);
  }

  /** A file among others is invisible but for its one failure entry exactly when it fails. */
  lemma {:induction false} IsolationExactly(env: Env, a: seq<string>, path: string, b: seq<string>)
    ensures Outcome(env, path).None? <==>
            var left, right := Route(env, a), Route(env, b);
            Route(env, a + [path] + b) == Joined(left, right).(failures := left.failures + [path] + right.failures)
  {
    RouteConcat(env, a + [path], b);
    RouteConcat(env, a, [path]);
    if Outcome(env, path).None? {
      RouteOne(env, path);
    } else {
      FilterOne(Fails(env), path);
      var left, right, all := Route(env, a), Route(env, b), Route(env, a + [path] + b);
      assert |all.failures| == |left.failures| + |right.failures|;
      assert |left.failures + [path] + right.failures| == |left.failures| + 1 + |right.failures|;
    }
  }

  /** Deleting a failing file from the input takes one entry out of `failures` and changes nothing else. */
  lemma {:induction false} DeletingAFailure(env: Env, a: seq<string>, path: string, b: seq<string>)
    requires Outcome(env, path).None?
    ensures var with, without := Route(env, a + [path] + b), Route(env, a + b);
            && with == without.(failures := with.failures)
            && with.failures == Route(env, a).failures + [path] + Route(env, b).failures
            && without.failures == Route(env, a).failures + Route(env, b).failures
  {
    IsolationExactly(env, a, path, b);
    RouteConcat(env, a, b);
  }

  // ----- order and partition

  /** Each selected position lands behind exactly the selected ones before it, so the list keeps the input's order. */
  lemma {:induction false} FilterAt<T>(p: T -> bool, xs: seq<T>, i: nat)
    requires i < |xs| && p(xs[i])
    ensures |Filter(p, xs[..i])| < |Filter(p, xs)| && Filter(p, xs)[|Filter(p, xs[..i])|] == xs[i]
  {
    assert xs == xs[..i] + [xs[i]] + xs[i + 1..];
    FilterConcat(p, xs[..i] + [xs[i]], xs[i + 1..]);
    FilterConcat(p, xs[..i], [xs[i]]);
    FilterOne(p, xs[i]);
  }

  lemma {:induction false} FilterSound<T>(p: T -> bool, xs: seq<T>, x: T)
    ensures x in Filter(p, xs) <==> x in xs && p(x)
  {
    if xs != [] {
      FilterSound(p, xs[..|xs| - 1], x);
      assert xs == xs[..|xs| - 1] + [xs[|xs| - 1]];
    }
  }

  lemma {:induction false} Counts(env: Env, files: seq<string>)
    ensures var r := Route(env, files);
            && |r.failures| + |r.classifications| == |files|
            && |r.skip| + |r.review| == |r.classifications|
  {
    if files != [] {
      Counts(env, files[..|files| - 1]);
    }
  }

  lemma {:induction false} ClassifiedAt(env: Env, files: seq<string>, i: nat)
    requires i < |files| && Outcome(env, files[i]).Some?
    ensures |Classified(env, files[..i])| < |Classified(env, files)|
    ensures Classified(env, files)[|Classified(env, files[..i])|] == Outcome(env, files[i]).value
  {
    var one := [files[i]];
    assert files == files[..i] + one + files[i + 1..];
    ClassifiedConcat(env, files[..i] + one, files[i + 1..]);
    ClassifiedConcat(env, files[..i], one);
    assert one[..0] == [];
    assert Classified(env, one) == Classified(env, one[..0]) + [Outcome(env, files[i]).value];
  }

  predicate At<T(==)>(xs: seq<T>, k: nat, x: T) {
    k < |xs| && xs[k] == x
  }

  /** Each position has one place among the failures or the classifications, and its places keep the input's order. */
  lemma {:induction false} EachPositionOnce(env: Env, files: seq<string>, i: nat)
    requires i < |files|
    ensures var r, before, f, c := Route(env, files), Route(env, files[..i]), files[i], Outcome(env, files[i]);
            && |r.failures| + |r.classifications| == |files|
            && |r.skip| + |r.review| == |r.classifications|
            && (c.None? ==> At(r.failures, |before.failures|, f))
            && (c.Some? ==> At(r.classifications, |before.classifications|, c.value))
            && (Routed(env, f, Review) ==> At(r.review, |before.review|, f))
            && (Routed(env, f, Sandbox) ==> At(r.sandbox, |before.sandbox|, f))
            && (Routed(env, f, Skip) ==> At(r.skip, |before.skip|, f))
  {
    Counts(env, files);
    var f := files[i];
    if Outcome(env, f).None? { FilterAt(Fails(env), files, i); } else { ClassifiedAt(env, files, i); }
    if Routed(env, f, Review) { FilterAt(In(env, Review), files, i); }
    if Routed(env, f, Sandbox) { FilterAt(In(env, Sandbox), files, i); }
    if Routed(env, f, Skip) { FilterAt(In(env, Skip), files, i); }
  }

  /** Which lists a path is on: the failures alone, the skipped alone, or the reviewed and perhaps the sandboxed. */
  lemma {:induction false} Buckets(env: Env, files: seq<string>, path: string)
    requires path in files
    ensures var r := Route(env, files);
            && (path in r.failures <==> Outcome(env, path).None?)
            && (path in r.failures ==> path !in r.skip && path !in r.review && path !in r.sandbox)
            && (path in r.skip ==> path !in r.review && path !in r.sandbox)
            && (path in r.sandbox ==> path in r.review)
            && (path in r.failures || path in r.skip || path in r.review)
  {
    FilterSound(In(env, Review), files, path);
    FilterSound(In(env, Sandbox), files, path);
    FilterSound(In(env, Skip), files, path);
    FilterSound(Fails(env), files, path);
  }

  /** A skipped or failed path never reaches another list, and no list invents a path. */
  lemma {:induction false} ListsAreInput(env: Env, files: seq<string>, path: string)
    ensures var r := Route(env, files);
            path in r.review || path in r.sandbox || path in r.skip || path in r.failures <==> path in files
  {
    FilterSound(In(env, Review), files, path);
    FilterSound(In(env, Sandbox), files, path);
    FilterSound(In(env, Skip), files, path);
    FilterSound(Fails(env), files, path);
  }

  /** Which lists a path of the input is on, by what reading and classifying it give. */
  lemma {:induction false} RouteExactly(env: Env, files: seq<string>, path: string)
    requires path in files
    ensures var r, body := Route(env, files), env.read(path);
      if body.None? || env.classify(path, body.value).None? then
        path in r.failures && path !in r.review && path !in r.sandbox && path !in r.skip
      else
        var c := env.classify(path, body.value).value;
        && path !in r.failures && c in r.classifications
        && (path in r.skip <==> Excluded(c)) && (path in r.review <==> !Excluded(c))
        && (path in r.sandbox <==> !Excluded(c) && c.language.Some?
                                   && c.language.value in {"javascript", "typescript", "python", "go"})
  {
    FilterSound(In(env, Review), files, path);
    FilterSound(In(env, Sandbox), files, path);
    FilterSound(In(env, Skip), files, path);
    FilterSound(Fails(env), files, path);
    var i :| 0 <= i < |files| && files[i] == path;
    if Outcome(env, path).Some? {
      ClassifiedAt(env, files, i);
    }
  }
}
