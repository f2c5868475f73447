/** The containment test of resolved paths: what `relative` answers, against the prefix order on segments. */
module PathContainment {

  /** A name in a normalised path. */
  predicate IsSegment(s: string) {
    s != "" && s != "." && s != ".." && '/' !in s
  }

  /** A normalised absolute path, from the root directory down. */
  type Path = p: seq<string> | forall i :: 0 <= i < |p| ==> IsSegment(p[i]) witness []

  // ----- resolve

  function UntilSlash(s: string): (n: nat)
    ensures n <= |s| && '/' !in s[..n] && (n < |s| ==> s[n] == '/')
  {
    if s == "" || s[0] == '/' then 0
    else
      assert s[..1 + UntilSlash(s[1..])] == [s[0]] + s[1..][..UntilSlash(s[1..])];
      1 + UntilSlash(s[1..])
  }

  /** The parts of `s` between its slashes. */
  function Split(s: string): (parts: seq<string>)
    ensures forall i :: 0 <= i < |parts| ==> '/' !in parts[i]
    decreases |s|
  {
    var n := UntilSlash(s);
    if n == |s| then [s] else [s[..n]] + Split(s[n + 1..])
  }

  /** One part taken from `p`: empty and "." stay, ".." goes up (and stays at the top), a name goes down. */
  function Step(p: Path, part: string): Path
    requires '/' !in part
  {
    if part == "" || part == "." then p
    else if part == ".." then (if p == [] then p else p[..|p| - 1])
    else p + [part]
  }

  function Walk(p: Path, parts: seq<string>): Path
    requires forall i :: 0 <= i < |parts| ==> '/' !in parts[i]
    decreases |parts|
  {
    if parts == [] then p else Walk(Step(p, parts[0]), parts[1..])
  }

  /** `resolve(base, input)` */
  function Resolve(base: Path, input: string): Path {
    Walk(if input != "" && input[0] == '/' then [] else base, Split(input))
  }

  // ----- relative

  function Common(a: seq<string>, b: seq<string>): (n: nat)
    ensures n <= |a| && n <= |b| && a[..n] == b[..n]
    ensures n < |a| && n < |b| ==> a[n] != b[n]
  {
    if a == [] || b == [] || a[0] != b[0] then 0
    else
      var n := Common(a[1..], b[1..]);
      assert a[..n + 1] == [a[0]] + a[1..][..n] && b[..n + 1] == [b[0]] + b[1..][..n];
      n + 1
  }

  function Join(parts: seq<string>): string {
    if parts == [] then ""
    else if |parts| == 1 then parts[0]
    else parts[0] + "/" + Join(parts[1..])
  }

  function Ups(n: nat): (u: seq<string>)
    ensures |u| == n && forall i :: 0 <= i < n ==> u[i] == ".."
  {
    if n == 0 then [] else [".."] + Ups(n - 1)
  }

  /** `relative(from, to)`: up to the common ancestor, then down. */
  function Relative(from: Path, to: Path): string {
    var n := Common(from, to);
    Join(Ups(|from| - n) + to[n..])
  }

  /** The check: equal to "..", starting with "../", or absolute. */
  predicate Escapes(rel: string) {
    rel == ".." || "../" <= rel || "/" <= rel
  }

  // ----- exactness

  lemma {:induction false} JoinUp(parts: seq<string>)
    requires parts != [] && parts[0] == ".."
    ensures Escapes(Join(parts))
  {
    if |parts| > 1 {
      assert "../" == ".." + "/";
      assert Join(parts)[..3] == "../";
    }
  }

  lemma {:induction false} JoinDown(parts: seq<string>)
    requires parts != [] ==> IsSegment(parts[0])
    ensures !Escapes(Join(parts))
  {
    if parts != [] {
      var s, j := parts[0], Join(parts);
      assert j[0] == s[0] && s[0] in s;
      assert |s| > 1 ==> j[1] == s[1] && s[1] in s;
      assert |s| > 2 ==> j[2] == s[2] && s[2] in s;
      assert |s| == 2 && s[0] == '.' && s[1] == '.' ==> s == "..";
      assert |s| == 1 && s[0] == '.' ==> s == ".";
    }
  }

  /** The test rejects exactly the paths that are not under the root, names such as "..foo" included. */
  lemma {:induction false} EscapesExactly(root: Path, target: Path)
    ensures Escapes(Relative(root, target)) <==> !(root <= target)
  {
    var n := Common(root, target);
    var parts := Ups(|root| - n) + target[n..];
    if n < |root| {
      JoinUp(parts);
      assert n < |target| ==> root[n] != target[n];
    } else {
      assert parts == target[n..];
      JoinDown(parts);
      assert root == root[..n] == target[..n];
    }
  }

  /** How far a walk stays from going above where it started: the lowest depth it touches. */
  function Lowest(parts: seq<string>, depth: int): (d: int)
    ensures d <= depth
    decreases |parts|
  {
    if parts == [] then depth
    else
      var next := if parts[0] == "" || parts[0] == "." then depth
                  else if parts[0] == ".." then depth - 1 else depth + 1;
      var rest := Lowest(parts[1..], next);
      if rest < depth then rest else depth
  }

  /** A walk that never climbs above the root stays under it. */
  lemma {:induction false} StaysInside(root: Path, p: Path, parts: seq<string>)
    requires forall i :: 0 <= i < |parts| ==> '/' !in parts[i]
    requires root <= p && Lowest(parts, |p| - |root|) >= 0
    ensures root <= Walk(p, parts)
    decreases |parts|
  {
    if parts != [] {
      StaysInside(root, Step(p, parts[0]), parts[1..]);
    }
  }

  /** A relative input that never climbs above the root is accepted. */
  lemma {:induction false} AcceptsInside(root: Path, input: string)
    requires !("/" <= input) && Lowest(Split(input), 0) >= 0
    ensures !Escapes(Relative(root, Resolve(root, input)))
  {
    StaysInside(root, root, Split(input));
    EscapesExactly(root, Resolve(root, input));
  }

  // ----- resolving and relating are each other's inverse

  ghost predicate NoSlashes(parts: seq<string>) {
    forall i :: 0 <= i < |parts| ==> '/' !in parts[i]
  }

  lemma {:induction false} UntilSlashOf(a: string, b: string)
    requires '/' !in a && (b == "" || b[0] == '/')
    ensures UntilSlash(a + b) == |a|
  {
    if a == "" {
      assert a + b == b;
    } else {
      assert (a + b)[0] == a[0] && a[0] in a && (a + b)[1..] == a[1..] + b;
      assert forall c :: c in a[1..] ==> c in a;
      UntilSlashOf(a[1..], b);
    }
  }

  /** Splitting undoes joining, and joining undoes splitting. */
  lemma {:induction false} SplitJoin(parts: seq<string>)
    requires parts != [] && NoSlashes(parts)
    ensures Split(Join(parts)) == parts
    decreases |parts|
  {
    var first, s := parts[0], Join(parts);
    if |parts| == 1 {
      assert first + "" == first;
      UntilSlashOf(first, "");
    } else {
      var rest := Join(parts[1..]);
      assert s == first + ("/" + rest) && ("/" + rest)[0] == '/';
      UntilSlashOf(first, "/" + rest);
      assert s[..|first|] == first && s[|first| + 1..] == rest;
      SplitJoin(parts[1..]);
    }
  }

  lemma {:induction false} JoinCons(first: string, rest: seq<string>)
    requires rest != []
    ensures Join([first] + rest) == first + "/" + Join(rest)
  {
    assert ([first] + rest)[1..] == rest;
  }

  lemma {:induction false} SlashBetween(s: string, n: nat)
    requires n < |s| && s[n] == '/'
    ensures s[..n] + "/" + s[n + 1..] == s
  {
  }

  lemma {:induction false} JoinSplit(s: string)
    ensures Split(s) != [] && Join(Split(s)) == s
    decreases |s|
  {
    var n := UntilSlash(s);
    if n < |s| {
      var tail := s[n + 1..];
      JoinSplit(tail);
      JoinCons(s[..n], Split(tail));
      SlashBetween(s, n);
    }
  }

  lemma {:induction false} WalkCons(p: Path, part: string, more: seq<string>)
    requires '/' !in part && NoSlashes(more)
    ensures NoSlashes([part] + more) && Walk(p, [part] + more) == Walk(Step(p, part), more)
  {
    assert ([part] + more)[1..] == more;
  }

  lemma {:induction false} HeadFirst(parts: seq<string>, more: seq<string>)
    requires parts != []
    ensures [parts[0]] + parts[1..] == parts
    ensures [parts[0]] + (parts[1..] + more) == parts + more
  {
  }

  lemma {:induction false} WalkConcat(p: Path, parts: seq<string>, more: seq<string>)
    requires NoSlashes(parts) && NoSlashes(more)
    ensures NoSlashes(parts + more) && Walk(p, parts + more) == Walk(Walk(p, parts), more)
    decreases |parts|
  {
    if parts == [] {
      assert parts + more == more;
    } else {
      var part, rest := parts[0], parts[1..];
      HeadFirst(parts, more);
      WalkConcat(Step(p, part), rest, more);
      WalkCons(p, part, rest);
      WalkCons(p, part, rest + more);
    }
  }

  /** Going up drops as many names, and stops at the top. */
  lemma {:induction false} WalkUps(p: Path, n: nat)
    ensures Walk(p, Ups(n)) == p[..if n <= |p| then |p| - n else 0]
    decreases n
  {
    if n > 0 {
      var q := Step(p, "..");
      WalkUps(q, n - 1);
      assert Ups(n)[1..] == Ups(n - 1);
    }
  }

  /** Names go down. */
  lemma {:induction false} WalkNames(p: Path, names: Path)
    ensures Walk(p, names) == p + names
    decreases |names|
  {
    if names == [] {
      assert p + names == p;
    } else {
      WalkNames(p + [names[0]], names[1..]);
      assert p + [names[0]] + names[1..] == p + names;
    }
  }

  lemma {:induction false} NotAbsolute(parts: seq<string>)
    requires parts != [] && parts[0] != "" && '/' !in parts[0]
    ensures Join(parts) != "" && Join(parts)[0] != '/'
  {
    assert Join(parts)[0] == parts[0][0] && parts[0][0] in parts[0];
  }

  lemma {:induction false} ResolveJoin(p: Path, parts: seq<string>)
    requires NoSlashes(parts) && (parts != [] ==> parts[0] != "")
    ensures Resolve(p, Join(parts)) == Walk(p, parts)
  {
    if parts == [] {
      EmptyStays(p);
    } else {
      SplitJoin(parts);
      NotAbsolute(parts);
    }
  }

  lemma {:induction false} EmptyStays(p: Path)
    ensures Resolve(p, "") == p
  {
    assert Split("") == [""];
    assert Walk(p, [""]) == Walk(Step(p, ""), []);
  }

  lemma {:induction false} BackParts(k: nat, names: Path)
    ensures NoSlashes(Ups(k) + names) && (Ups(k) + names != [] ==> (Ups(k) + names)[0] != "")
  {
  }

  lemma {:induction false} WalkBack(from: Path, names: Path, n: nat, k: nat)
    requires n + k == |from|
    ensures NoSlashes(Ups(k) + names) && Walk(from, Ups(k) + names) == from[..n] + names
  {
    WalkUps(from, k);
    WalkNames(from[..n], names);
    WalkConcat(from, Ups(k), names);
  }

  lemma {:induction false} ResolveBack(from: Path, names: Path, n: nat, k: nat)
    requires n + k == |from|
    ensures Resolve(from, Join(Ups(k) + names)) == from[..n] + names
  {
    BackParts(k, names);
    ResolveJoin(from, Ups(k) + names);
    WalkBack(from, names, n, k);
  }

  /** From any directory, the relative path of a target leads to the target. */
  lemma {:induction false} ResolveRelative(from: Path, to: Path)
    ensures Resolve(from, Relative(from, to)) == to
  {
    var n := Common(from, to);
    ResolveBack(from, to[n..], n, |from| - n);
    assert to[..n] + to[n..] == to;
  }

  /** An absolute path leads to itself from anywhere. */
  lemma {:induction false} ResolveAbsolute(from: Path, to: Path)
    ensures Resolve(from, "/" + Join(to)) == to
  {
    var s := Join(to);
    UntilSlashOf("", "/" + s);
    assert "" + ("/" + s) == "/" + s && ("/" + s)[1..] == s && ("/" + s)[..0] == "";
    assert Split("/" + s) == [""] + Split(s);
    assert Walk([], [""] + Split(s)) == Walk([], Split(s)) by { assert ([""] + Split(s))[1..] == Split(s); }
    if to == [] {
      EmptyStays([]);
    } else {
      SplitJoin(to);
      WalkNames([], to);
    }
  }

  /** Empty parts and single dots change nothing, and a name followed by ".." cancels. */
  lemma {:induction false} WalkCancels(p: Path, name: string)
    requires IsSegment(name)
    ensures Walk(p, [""]) == Walk(p, ["."]) == Walk(p, [name, ".."]) == p
  {
    assert Walk(p, [""]) == Walk(Step(p, ""), []) && Walk(p, ["."]) == Walk(Step(p, "."), []);
    assert [name, ".."][1..] == [".."] && Walk(p + [name], [".."]) == Walk(Step(p + [name], ".."), []);
  }
}
