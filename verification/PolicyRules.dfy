/** The policy-rule computation: one chain written twice, with ceilings on rules and on changed paths. */
module PolicyRules {
  import opened Options
  import opened Lexicographic

  const MAX_TOTAL_RULES: nat := 5000
  const MAX_CHANGED_PATHS: nat := 500
  const RESOLVE_YIELD_EVERY: nat := 20

  datatype Input = Input(workspacePath: string, customPatterns: seq<string>, knowledgeEnabled: bool,
                         changedPaths: seq<string>)

  datatype Discovered<F> = Discovered(files: seq<F>, filesCapHit: bool)

  /** The helpers of the other modules. Discovery throws, here `None`, on a malformed pattern. */
  datatype Helpers<!F, !R, !B> = Helpers(discover: (string, seq<string>) -> Option<Discovered<F>>,
                                        extract: F -> seq<R>, resolve: (string, seq<R>) -> B)

  datatype Computed<B> = Computed(bundles: map<string, B>, truncated: bool)

  // ----- what the chain computes

  function First<T>(xs: seq<T>, n: nat): (r: seq<T>)
    ensures r <= xs && |r| == if |xs| <= n then |xs| else n
  {
    if |xs| <= n then xs else xs[..n]
  }

  /** All rules of the files, in file order. */
  function Flattened<F, R>(extract: F -> seq<R>, files: seq<F>): seq<R> {
    if files == [] then [] else Flattened(extract, files[..|files| - 1]) + extract(files[|files| - 1])
  }

  ghost predicate Fills<F, R>(extract: F -> seq<R>, files: seq<F>, cap: nat, k: nat)
    requires k <= |files|
  {
    |Flattened(extract, files[..k])| == cap
  }

  /** There are more rules than the ceiling, and no leading files hold exactly as many. */
  ghost predicate ClipsAFile<F, R>(extract: F -> seq<R>, files: seq<F>, cap: nat) {
    |Flattened(extract, files)| > cap && forall k: nat :: k <= |files| ==> !Fills(extract, files, cap, k)
  }

  /** `[...new Set(patterns)].sort()` */
  function Ascending(patterns: seq<string>): seq<string> {
    if patterns == [] then [] else Insert(patterns[0], Ascending(patterns[1..]))
  }

  /** Into its place, unless it is there. */
  function Insert(p: string, sorted: seq<string>): seq<string> {
    if sorted == [] || Less(p, sorted[0]) then [p] + sorted
    else if p == sorted[0] then sorted
    else [sorted[0]] + Insert(p, sorted[1..])
  }

  function Resolved<R, B>(resolve: (string, seq<R>) -> B, paths: seq<string>, rules: seq<R>): map<string, B> {
    map p | p in paths :: resolve(p, rules)
  }

  /** The envelope, except that the loops decide the flag step by step. */
  ghost function Envelope<F, R, B>(input: Input, h: Helpers<F, R, B>): Option<Computed<B>> {
    if !input.knowledgeEnabled then Some(Computed(map[], false))
    else
      var found := h.discover(input.workspacePath, Ascending(input.customPatterns));
      if found.None? then None
      else
        var rules := First(Flattened(h.extract, found.value.files), MAX_TOTAL_RULES);
        Some(Computed(Resolved(h.resolve, First(input.changedPaths, MAX_CHANGED_PATHS), rules),
                      || found.value.filesCapHit
                      || ClipsAFile(h.extract, found.value.files, MAX_TOTAL_RULES)
                      || |input.changedPaths| > MAX_CHANGED_PATHS))
  }

  // ----- the helpers of the chain

  method AppendRulesCapped<R>(all: seq<R>, rules: seq<R>, cap: nat) returns (appended: seq<R>, clipped: bool)
    ensures |all| <= cap ==> appended == First(all + rules, cap) && (clipped <==> |all| + |rules| > cap)
    ensures |all| > cap ==> appended == all && (clipped <==> rules != [])
  {
    var remaining := cap - |all|;
    if remaining <= 0 {
      return all, |rules| > 0;
    }
    if |rules| > remaining {
      return all + rules[..remaining], true;
    }
    return all + rules, false;
  }

  method CappedChangedPaths(changedPaths: seq<string>) returns (paths: seq<string>, capped: bool)
    ensures paths == First(changedPaths, MAX_CHANGED_PATHS)
    ensures capped <==> |changedPaths| > MAX_CHANGED_PATHS
  {
    if |changedPaths| <= MAX_CHANGED_PATHS {
      return changedPaths, false;
    }
    return changedPaths[..MAX_CHANGED_PATHS], true;
  }

  // ----- the rules collected

  lemma {:induction false} FlattenedGrows<F, R>(extract: F -> seq<R>, files: seq<F>, k: nat)
    requires k <= |files|
    ensures Flattened(extract, files[..k]) <= Flattened(extract, files)
    decreases |files|
  {
    if k < |files| {
      FlattenedGrows(extract, files[..|files| - 1], k);
      assert files[..|files| - 1][..k] == files[..k];
    } else {
      assert files[..k] == files;
    }
  }

  lemma {:induction false} FlattenedGrowsTo<F, R>(extract: F -> seq<R>, files: seq<F>, j: nat, k: nat)
    requires j <= k <= |files|
    ensures Flattened(extract, files[..j]) <= Flattened(extract, files[..k])
  {
    FlattenedGrows(extract, files[..k], j);
    assert files[..k][..j] == files[..j];
  }

  lemma {:induction false} FlattenedNext<F, R>(extract: F -> seq<R>, files: seq<F>, k: nat)
    requires k < |files|
    ensures Flattened(extract, files[..k + 1]) == Flattened(extract, files[..k]) + extract(files[k])
  {
    assert files[..k + 1][..k] == files[..k];
  }

  /** The first `k` files leave room for another rule. */
  ghost predicate HasRoom<F, R>(extract: F -> seq<R>, files: seq<F>, cap: nat, k: nat)
    requires k <= |files|
  {
    |Flattened(extract, files[..k])| < cap
  }

  ghost predicate Room<F, R>(extract: F -> seq<R>, files: seq<F>, cap: nat, k: nat)
    requires k <= |files|
  {
    forall j: nat :: j < k ==> HasRoom(extract, files, cap, j)
  }

  /** Where the loop stopped decides what it holds and whether a file was clipped. */
  lemma {:induction false} StoppedAt<F, R>(extract: F -> seq<R>, files: seq<F>, cap: nat, k: nat)
    requires k <= |files|
    requires Room(extract, files, cap, k) && (k < |files| ==> !HasRoom(extract, files, cap, k))
    ensures First(Flattened(extract, files[..k]), cap) == First(Flattened(extract, files), cap)
    ensures |Flattened(extract, files[..k])| > cap <==> ClipsAFile(extract, files, cap)
  {
    var part, whole := Flattened(extract, files[..k]), Flattened(extract, files);
    FlattenedGrows(extract, files, k);
    if k == |files| {
      assert files[..k] == files;
    }
    if |part| > cap {
      forall j: nat | j <= |files|
        ensures !Fills(extract, files, cap, j)
      {
        if j >= k {
          FlattenedGrowsTo(extract, files, k, j);
        } else {
          assert HasRoom(extract, files, cap, j);
        }
      }
    } else if |whole| > cap {
      assert Fills(extract, files, cap, k);
    }
  }

  ghost predicate Collected<F, R>(extract: F -> seq<R>, files: seq<F>, cap: nat, all: seq<R>, capped: bool) {
    all == First(Flattened(extract, files), cap) && (capped <==> |Flattened(extract, files)| > cap)
  }

  lemma {:induction false} CollectedNext<F, R>(extract: F -> seq<R>, files: seq<F>, cap: nat, k: nat,
                                               all: seq<R>, capped: bool, appended: seq<R>, clipped: bool)
    requires k < |files| && Room(extract, files, cap, k) && HasRoom(extract, files, cap, k)
    requires Collected(extract, files[..k], cap, all, capped)
    requires appended == First(all + extract(files[k]), cap) && (clipped <==> |all| + |extract(files[k])| > cap)
    ensures Collected(extract, files[..k + 1], cap, appended, clipped || capped)
    ensures Room(extract, files, cap, k + 1) && (|appended| < cap <==> HasRoom(extract, files, cap, k + 1))
  {
    FlattenedNext(extract, files, k);
  }

  /** Every file handed to the append helper meets a list with room, so the helper's first branch is dead here. */
  method CollectRules<F, R>(extract: F -> seq<R>, files: seq<F>, cap: nat)
    returns (allRules: seq<R>, rulesCapped: bool, ghost handled: nat)
    requires cap > 0
    ensures allRules == First(Flattened(extract, files), cap)
    ensures rulesCapped <==> ClipsAFile(extract, files, cap)
    ensures handled <= |files| && Room(extract, files, cap, handled)
    ensures handled < |files| ==> !HasRoom(extract, files, cap, handled)
  {
    allRules, rulesCapped, handled := [], false, 0;
    for k := 0 to |files|
      invariant handled == k && Room(extract, files, cap, k) && (k < |files| ==> HasRoom(extract, files, cap, k))
      invariant Collected(extract, files[..k], cap, allRules, rulesCapped)
    {
      handled := k + 1;
      var appended, clipped := AppendRulesCapped(allRules, extract(files[k]), cap);
      CollectedNext(extract, files, cap, k, allRules, rulesCapped, appended, clipped);
      allRules, rulesCapped := appended, clipped || rulesCapped;
      if |allRules| >= cap { break; }
    }
    StoppedAt(extract, files, cap, handled);
  }

  // ----- the two chains

  /** Macrotask turns handed to heartbeats and timers. */
  class EventLoop {
    var turns: nat

    constructor ()
      ensures turns == 0
    {
      turns := 0;
    }

    method Yield()
      modifies this
      ensures turns == old(turns) + 1
    {
      turns := turns + 1;
    }
  }

  method ComputePolicyChain<F, R, B>(input: Input, h: Helpers<F, R, B>) returns (r: Option<Computed<B>>)
    ensures r == Envelope(input, h)
  {
    if !input.knowledgeEnabled { return Some(Computed(map[], false)); }
    var found := h.discover(input.workspacePath, Ascending(input.customPatterns));
    if found.None? { return None; }
    var rules, rulesCapped, _ := CollectRules(h.extract, found.value.files, MAX_TOTAL_RULES);
    var paths, pathsCapped := CappedChangedPaths(input.changedPaths);
    var bundles: map<string, B> := map[];
    for i := 0 to |paths|
      invariant bundles == Resolved(h.resolve, paths[..i], rules)
    {
      bundles := bundles[paths[i] := h.resolve(paths[i], rules)];
      assert forall p :: p in paths[..i + 1] <==> p in paths[..i] || p == paths[i];
    }
    assert paths[..|paths|] == paths;
    return Some(Computed(bundles, found.value.filesCapHit || rulesCapped || pathsCapped));
  }

  /** The files after which there is still room: the turns the extraction loop yields. */
  ghost function FilesLeavingRoom<F, R>(extract: F -> seq<R>, files: seq<F>, cap: nat): nat {
    if files == [] then 0
    else FilesLeavingRoom(extract, files[..|files| - 1], cap) + if |Flattened(extract, files)| < cap then 1 else 0
  }

  lemma {:induction false} NoRoomAfter<F, R>(extract: F -> seq<R>, files: seq<F>, cap: nat, k: nat)
    requires k <= |files| && |Flattened(extract, files[..k])| >= cap
    ensures FilesLeavingRoom(extract, files, cap) == FilesLeavingRoom(extract, files[..k], cap)
    decreases |files|
  {
    if k < |files| {
      FlattenedGrows(extract, files, k);
      assert files[..|files| - 1][..k] == files[..k];
      NoRoomAfter(extract, files[..|files| - 1], cap, k);
    } else {
      assert files[..k] == files;
    }
  }

  lemma {:induction false} RoomWhenStopped<F, R>(extract: F -> seq<R>, files: seq<F>, cap: nat, k: nat)
    requires k <= |files| && (k < |files| ==> |Flattened(extract, files[..k])| >= cap)
    ensures FilesLeavingRoom(extract, files, cap) == FilesLeavingRoom(extract, files[..k], cap)
  {
    if k == |files| {
      assert files[..k] == files;
    } else {
      NoRoomAfter(extract, files, cap, k);
    }
  }

  lemma {:induction false} RoomNext<F, R>(extract: F -> seq<R>, files: seq<F>, cap: nat, k: nat)
    requires k < |files|
    ensures FilesLeavingRoom(extract, files[..k + 1], cap) ==
            FilesLeavingRoom(extract, files[..k], cap) + if |Flattened(extract, files[..k + 1])| < cap then 1 else 0
  {
    assert files[..k + 1][..k] == files[..k];
  }

  method CollectRulesYielding<F, R>(loop: EventLoop, extract: F -> seq<R>, files: seq<F>, cap: nat)
    returns (allRules: seq<R>, rulesCapped: bool)
    requires cap > 0
    modifies loop
    ensures allRules == First(Flattened(extract, files), cap)
    ensures rulesCapped <==> ClipsAFile(extract, files, cap)
    ensures loop.turns == old(loop.turns) + FilesLeavingRoom(extract, files, cap)
  {
    allRules, rulesCapped := [], false;
    ghost var handled, before := 0, loop.turns;
    for k := 0 to |files|
      invariant handled == k && Room(extract, files, cap, k) && (k < |files| ==> HasRoom(extract, files, cap, k))
      invariant Collected(extract, files[..k], cap, allRules, rulesCapped)
      invariant loop.turns == before + FilesLeavingRoom(extract, files[..k], cap)
    {
      handled := k + 1;
      var appended, clipped := AppendRulesCapped(allRules, extract(files[k]), cap);
      CollectedNext(extract, files, cap, k, allRules, rulesCapped, appended, clipped);
      RoomNext(extract, files, cap, k);
      allRules, rulesCapped := appended, clipped || rulesCapped;
      if |allRules| >= cap { break; }
      loop.Yield();
    }
    RoomWhenStopped(extract, files, cap, handled);
    StoppedAt(extract, files, cap, handled);
  }

  /** The activity: the synchronous chain's envelope, and a turn after every file with room and every twenty paths. */
  method ComputePolicyRules<F, R, B>(loop: EventLoop, input: Input, h: Helpers<F, R, B>)
    returns (r: Option<Computed<B>>)
    modifies loop
    ensures r == Envelope(input, h)
    ensures loop.turns == old(loop.turns) + Turns(input, h)
  {
    if !input.knowledgeEnabled { return Some(Computed(map[], false)); }
    var found := h.discover(input.workspacePath, Ascending(input.customPatterns));
    if found.None? { return None; }
    var rules, rulesCapped := CollectRulesYielding(loop, h.extract, found.value.files, MAX_TOTAL_RULES);
    var paths, pathsCapped := CappedChangedPaths(input.changedPaths);
    var bundles: map<string, B> := map[];
    ghost var turns := loop.turns;
    for i := 0 to |paths|
      invariant bundles == Resolved(h.resolve, paths[..i], rules)
      invariant loop.turns == turns + i / RESOLVE_YIELD_EVERY
    {
      bundles := bundles[paths[i] := h.resolve(paths[i], rules)];
      assert forall p :: p in paths[..i + 1] <==> p in paths[..i] || p == paths[i];
      if (i + 1) % RESOLVE_YIELD_EVERY == 0 {
        loop.Yield();
      }
    }
    assert paths[..|paths|] == paths;
    return Some(Computed(bundles, found.value.filesCapHit || rulesCapped || pathsCapped));
  }

  ghost function Turns<F, R, B>(input: Input, h: Helpers<F, R, B>): nat {
    if !input.knowledgeEnabled then 0
    else
      var found := h.discover(input.workspacePath, Ascending(input.customPatterns));
      if found.None? then 0
      else FilesLeavingRoom(h.extract, found.value.files, MAX_TOTAL_RULES)
           + |First(input.changedPaths, MAX_CHANGED_PATHS)| / RESOLVE_YIELD_EVERY
  }

  // ----- what the envelope tells its reader

  /** Some guideline file, some rule or some changed path took no part. */
  ghost predicate Incomplete<F, R>(input: Input, extract: F -> seq<R>, found: Discovered<F>) {
    || found.filesCapHit
    || |Flattened(extract, found.files)| > MAX_TOTAL_RULES
    || |input.changedPaths| > MAX_CHANGED_PATHS
  }

  /** `truncated` is never raised wrongly; it hides a loss exactly when the ceiling falls between two files. */
  lemma {:induction false} TruncatedExactly<F, R, B>(input: Input, h: Helpers<F, R, B>, found: Discovered<F>)
    requires input.knowledgeEnabled
    requires h.discover(input.workspacePath, Ascending(input.customPatterns)) == Some(found)
    ensures Envelope(input, h).Some?
    ensures Envelope(input, h).value.truncated ==> Incomplete(input, h.extract, found)
    ensures Incomplete(input, h.extract, found) && !Envelope(input, h).value.truncated <==>
            && !found.filesCapHit && |input.changedPaths| <= MAX_CHANGED_PATHS
            && exists j: nat :: j < |found.files| && Fills(h.extract, found.files, MAX_TOTAL_RULES, j)
                                && |Flattened(h.extract, found.files)| > MAX_TOTAL_RULES
  {
    assert found.files[..|found.files|] == found.files;
  }

  /** One file at the ceiling and one more rule after it: the rule is dropped without a word. */
  lemma {:induction false} ExactFillExample(input: Input, h: Helpers<seq<int>, int, int>)
    requires input == Input("/w", [], true, [])
    requires forall rules: seq<int> :: h.extract(rules) == rules
    requires h.discover("/w", []) == Some(Discovered([seq(MAX_TOTAL_RULES, i => i), [7]], false))
    ensures Envelope(input, h) == Some(Computed(map[], false))
    ensures |Flattened(h.extract, [seq(MAX_TOTAL_RULES, i => i), [7]])| == MAX_TOTAL_RULES + 1
  {
    var full := seq(MAX_TOTAL_RULES, i => i);
    var files := [full, [7]];
    assert files[..1] == [full] && files[..2] == files && [full][..0] == [];
    assert Flattened(h.extract, []) == [];
    assert Flattened(h.extract, [full]) == Flattened(h.extract, []) + full;
    FlattenedNext(h.extract, files, 1);
    assert Fills(h.extract, files, MAX_TOTAL_RULES, 1);
    assert Resolved(h.resolve, [], First(Flattened(h.extract, files), MAX_TOTAL_RULES)) == map[];
  }

  // ----- the patterns

  ghost predicate StrictlyAscending(xs: seq<string>) {
    forall i, j :: 0 <= i < j < |xs| ==> Less(xs[i], xs[j])
  }

  lemma {:induction false} InsertAscends(p: string, sorted: seq<string>)
    requires StrictlyAscending(sorted)
    ensures StrictlyAscending(Insert(p, sorted))
    ensures forall x :: x in Insert(p, sorted) <==> x == p || x in sorted
  {
    if sorted != [] {
      LessTotal(p, sorted[0]);
      assert sorted == [sorted[0]] + sorted[1..];
      if Less(p, sorted[0]) {
        forall x | x in sorted ensures Less(p, x) {
          if x != sorted[0] { LessTransitive(p, sorted[0], x); }
        }
      } else if p != sorted[0] {
        InsertAscends(p, sorted[1..]);
        assert forall x :: x in Insert(p, sorted[1..]) ==> Less(sorted[0], x);
      }
    }
  }

  lemma {:induction false} AscendingAscends(patterns: seq<string>)
    ensures StrictlyAscending(Ascending(patterns))
    ensures forall x :: x in Ascending(patterns) <==> x in patterns
  {
    if patterns != [] {
      AscendingAscends(patterns[1..]);
      InsertAscends(patterns[0], Ascending(patterns[1..]));
      assert patterns == [patterns[0]] + patterns[1..];
    }
  }

  /** A strictly ascending list is determined by its elements. */
  lemma {:induction false} AscendingUnique(a: seq<string>, b: seq<string>)
    requires StrictlyAscending(a) && StrictlyAscending(b) && forall x :: x in a <==> x in b
    ensures a == b
  {
    HasFirst(a);
    HasFirst(b);
    if a != [] && b != [] {
      assert a[0] in b;
      assert b[0] in a;
      HeadIsLeast(a, b[0]);
      HeadIsLeast(b, a[0]);
      if a[0] != b[0] {
        LessTransitive(a[0], b[0], a[0]);
        LessIrreflexive(a[0]);
      }
      TailElements(a);
      TailElements(b);
      AscendingUnique(a[1..], b[1..]);
      assert a == [a[0]] + a[1..] && b == [b[0]] + b[1..];
    }
  }

  lemma {:induction false} HasFirst(a: seq<string>)
    ensures a != [] ==> exists x :: x in a
  {
    assert a != [] ==> a[0] in a;
  }

  lemma {:induction false} HeadIsLeast(a: seq<string>, x: string)
    requires StrictlyAscending(a) && x in a
    ensures x == a[0] || Less(a[0], x)
  {
  }

  lemma {:induction false} TailElements(a: seq<string>)
    requires StrictlyAscending(a) && a != []
    ensures forall x :: x in a[1..] <==> x in a && x != a[0]
  {
    LessIrreflexive(a[0]);
    assert a == [a[0]] + a[1..];
    assert forall x :: x in a[1..] ==> Less(a[0], x);
  }

  /** Neither the order of the custom patterns nor their repetitions can be seen in the envelope. */
  lemma {:induction false} PatternsAreASet<F, R, B>(input: Input, other: Input, h: Helpers<F, R, B>)
    requires other == input.(customPatterns := other.customPatterns)
    requires forall x :: x in input.customPatterns <==> x in other.customPatterns
    ensures Envelope(input, h) == Envelope(other, h)
  {
    AscendingAscends(input.customPatterns);
    AscendingAscends(other.customPatterns);
    AscendingUnique(Ascending(input.customPatterns), Ascending(other.customPatterns));
  }

  // ----- the envelope, part by part

  /** The first 5000 rules, file by file. */
  ghost predicate Gathered<F, R>(extract: F -> seq<R>, files: seq<F>, rules: seq<R>) {
    && rules <= Flattened(extract, files)
    && (|rules| == 5000 || (|rules| < 5000 && rules == Flattened(extract, files)))
  }

  /** A bundle for each of the first 500 changed paths, resolved against the same rules. */
  ghost predicate Bundled<R, B>(resolve: (string, seq<R>) -> B, paths: seq<string>, rules: seq<R>,
                                bundles: map<string, B>)
  {
    && (forall p :: p in bundles <==> exists i :: 0 <= i < |paths| && i < 500 && paths[i] == p)
    && forall p :: p in bundles ==> bundles[p] == resolve(p, rules)
  }

  /** The patterns handed to the discovery: each custom pattern once, in ascending order. */
  ghost predicate Sorted(patterns: seq<string>, custom: seq<string>) {
    StrictlyAscending(patterns) && forall x :: x in patterns <==> x in custom
  }

  /**
   * What the chain answers, whatever its helpers do: nothing when the knowledge base is off, the discovery's error when
   * it throws, and otherwise the bundles of the first 500 paths under the first 5000 rules of what it found.
   */
  lemma {:induction false} EnvelopeExactly<F, R, B>(input: Input, h: Helpers<F, R, B>, patterns: seq<string>)
    returns (rules: seq<R>)
    requires Sorted(patterns, input.customPatterns)
    ensures var e := Envelope(input, h);
      if !input.knowledgeEnabled then e == Some(Computed(map[], false))
      else
        var found := h.discover(input.workspacePath, patterns);
        && (e.None? <==> found.None?)
        && (found.Some? ==>
              && Gathered(h.extract, found.value.files, rules)
              && Bundled(h.resolve, input.changedPaths, rules, e.value.bundles))
  {
    AscendingAscends(input.customPatterns);
    AscendingUnique(Ascending(input.customPatterns), patterns);
    rules := [];
    var found := h.discover(input.workspacePath, patterns);
    if input.knowledgeEnabled && found.Some? {
      rules := First(Flattened(h.extract, found.value.files), MAX_TOTAL_RULES);
      FirstFewBundled(h.resolve, input.changedPaths, rules);
    }
  }

  lemma {:induction false} FirstFewBundled<R, B>(resolve: (string, seq<R>) -> B, paths: seq<string>, rules: seq<R>)
    ensures Bundled(resolve, paths, rules, Resolved(resolve, First(paths, MAX_CHANGED_PATHS), rules))
  {
    var few := First(paths, MAX_CHANGED_PATHS);
    forall p
      ensures p in few <==> exists i :: 0 <= i < |paths| && i < 500 && paths[i] == p
    {
      if p in few {
        var i :| 0 <= i < |few| && few[i] == p;
        assert paths[i] == p;
      }
      if i :| 0 <= i < |paths| && i < 500 && paths[i] == p {
        assert few[i] == p;
      }
    }
  }

  /** A turn for every file that leaves room below 5000 rules, and one for every twenty of at most 500 paths. */
  lemma {:induction false} TurnsExactly<F, R, B>(input: Input, h: Helpers<F, R, B>, found: Discovered<F>)
    requires input.knowledgeEnabled
    requires h.discover(input.workspacePath, Ascending(input.customPatterns)) == Some(found)
    ensures Turns(input, h) == |LeavingRoom(h.extract, found.files)|
            + (if |input.changedPaths| > 500 then 500 else |input.changedPaths|) / 20
  {
    RoomCounted(h.extract, found.files);
  }

  ghost function LeavingRoom<F, R>(extract: F -> seq<R>, files: seq<F>): set<nat> {
    set k: nat | 1 <= k <= |files| && |Flattened(extract, files[..k])| < 5000
  }

  lemma {:induction false} LeavingLast<F, R>(extract: F -> seq<R>, files: seq<F>)
    requires files != []
    ensures var some, all := LeavingRoom(extract, files[..|files| - 1]), LeavingRoom(extract, files);
      |files| !in some && all == if |Flattened(extract, files)| < 5000 then some + {|files|} else some
  {
    var front := files[..|files| - 1];
    forall k: nat | k < |files|
      ensures front[..k] == files[..k]
    {
    }
    assert files[..|files|] == files;
  }

  lemma {:induction false} RoomCounted<F, R>(extract: F -> seq<R>, files: seq<F>)
    ensures FilesLeavingRoom(extract, files, MAX_TOTAL_RULES) == |LeavingRoom(extract, files)|
    decreases |files|
  {
    if files != [] {
      RoomCounted(extract, files[..|files| - 1]);
      LeavingLast(extract, files);
    }
  }
}
