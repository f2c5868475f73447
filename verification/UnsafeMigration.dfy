/** The unsafe-migration detector over stripped SQL, and why its line numbers are those of the file. */
module UnsafeMigration {
  import opened MigrationPatterns
  import opened Options
  import opened SqlComments

  // ----- upper-casing; Unicode may turn one character into several

  type CaseMap = char -> string

  ghost predicate KeepsLines(up: CaseMap) {
    up('\n') == "\n" && forall c :: c != '\n' ==> '\n' !in up(c)
  }

  function UpperText(up: CaseMap, s: string): string {
    if s == "" then "" else up(s[0]) + UpperText(up, s[1..])
  }

  lemma {:induction false} UpperAppend(up: CaseMap, s: string, t: string)
    ensures UpperText(up, s + t) == UpperText(up, s) + UpperText(up, t)
  {
    if s == "" {
      assert s + t == t;
    } else {
      UpperAppend(up, s[1..], t);
      assert (s + t)[1..] == s[1..] + t && (s + t)[0] == s[0];
      Associates(up(s[0]), UpperText(up, s[1..]), UpperText(up, t));
    }
  }

  lemma {:induction false} Associates(a: string, b: string, c: string)
    ensures a + b + c == a + (b + c)
  {
  }

  // ----- line numbers

  function Newlines(s: string): nat {
    if s == "" then 0 else (if s[0] == '\n' then 1 else 0) + Newlines(s[1..])
  }

  lemma {:induction false} NewlinesExactly(s: string)
    ensures Newlines(s) == multiset(s)['\n']
  {
    if s != "" {
      NewlinesExactly(s[1..]);
      assert s == [s[0]] + s[1..];
    }
  }

  lemma {:induction false} NewlinesAppend(s: string, t: string)
    ensures Newlines(s + t) == Newlines(s) + Newlines(t)
  {
    if s == "" {
      assert s + t == t;
    } else {
      NewlinesAppend(s[1..], t);
      assert (s + t)[1..] == s[1..] + t;
    }
  }

  lemma {:induction false} NoNewlines(s: string)
    requires '\n' !in s
    ensures Newlines(s) == 0
  {
    if s != "" {
      NoNewlines(s[1..]);
    }
  }

  lemma {:induction false} UpperNewlines(up: CaseMap, s: string)
    requires KeepsLines(up)
    ensures Newlines(UpperText(up, s)) == Newlines(s)
  {
    if s != "" {
      UpperNewlines(up, s[1..]);
      NewlinesAppend(up(s[0]), UpperText(up, s[1..]));
      if s[0] == '\n' {
        assert "\n"[1..] == "";
        assert Newlines("\n") == 1 + Newlines("\n"[1..]);
      } else {
        NoNewlines(up(s[0]));
      }
    }
  }

  lemma {:induction false} SameNewlines(s: string, t: string)
    requires |s| == |t| && forall k :: 0 <= k < |s| ==> (s[k] == '\n' <==> t[k] == '\n')
    ensures Newlines(s) == Newlines(t)
  {
    if s != "" {
      SameNewlines(s[1..], t[1..]);
    }
  }

  /** The 1-based line of offset `index`. */
  method LineOf(text: string, index: nat) returns (line: nat)
    requires index <= |text|
    ensures line == 1 + Newlines(text[..index])
  {
    line := 1;
    for i := 0 to index
      invariant line == 1 + Newlines(text[..i])
    {
      assert text[..i + 1] == text[..i] + [text[i]];
      NewlinesAppend(text[..i], [text[i]]);
      assert Newlines([text[i]]) == (if text[i] == '\n' then 1 else 0) + Newlines([text[i]][1..]);
      if text[i] == '\n' {
        line := line + 1;
      }
    }
  }

  // ----- offsets, and the lines of any offset

  lemma {:induction false} UpperStep(up: CaseMap, t: string, p: nat)
    requires p < |t|
    ensures UpperText(up, t[..p + 1]) == UpperText(up, t[..p]) + up(t[p])
  {
    assert t[..p + 1] == t[..p] + [t[p]];
    UpperAppend(up, t[..p], [t[p]]);
    assert [t[p]][1..] == "";
    assert UpperText(up, [t[p]]) == up(t[p]) + UpperText(up, [t[p]][1..]);
  }

  ghost predicate OffsetStays(up: CaseMap, t: string, p: nat)
    requires p <= |t|
  {
    |UpperText(up, t[..p])| == p
  }

  lemma {:induction false} OffsetsStayUpTo(up: CaseMap, t: string, p: nat)
    requires p <= |t| && forall k :: 0 <= k < p ==> |up(t[k])| == 1
    ensures OffsetStays(up, t, p)
  {
    if p > 0 {
      OffsetsStayUpTo(up, t, p - 1);
      UpperStep(up, t, p - 1);
    }
  }

  /** Upper-casing moves no offset if and only if it lengthens no character that stripping has left. */
  lemma {:induction false} OffsetsStayExactly(up: CaseMap, s: string)
    ensures (forall p :: 0 <= p <= |s| ==> OffsetStays(up, Strip(s), p))
       <==> (forall k :: 0 <= k < |s| ==> |up(Strip(s)[k])| == 1)
  {
    var t := Strip(s);
    if forall k :: 0 <= k < |s| ==> |up(t[k])| == 1 {
      forall p | 0 <= p <= |s|
        ensures OffsetStays(up, t, p)
      {
        OffsetsStayUpTo(up, t, p);
      }
    }
    if forall p :: 0 <= p <= |s| ==> OffsetStays(up, t, p) {
      forall k | 0 <= k < |s|
        ensures |up(t[k])| == 1
      {
        assert OffsetStays(up, t, k) && OffsetStays(up, t, k + 1);
        UpperStep(up, t, k);
      }
    }
  }

  /** The sharp s, whose upper case is two letters, moves every offset after it. */
  lemma {:induction false} OffsetMoves(up: CaseMap)
    requires up('\U{00df}') == "SS"
    ensures !OffsetStays(up, Strip("\U{00df}"), 1)
  {
    var s := "\U{00df}";
    StripExact(s, 0);
    assert InComment(s, 0) == IsComment(s, 0);
    UpperStep(up, Strip(s), 0);
  }

  /** The offset in `t` of the character that offset `q` of the upper-cased text comes from. */
  function Origin(up: CaseMap, t: string, q: nat): (p: nat)
    requires q <= |UpperText(up, t)|
    ensures p <= |t|
  {
    if t == "" || q < |up(t[0])| then 0 else 1 + Origin(up, t[1..], q - |up(t[0])|)
  }

  lemma {:induction false} OriginShows(up: CaseMap, t: string, q: nat)
    requires q < |UpperText(up, t)|
    ensures Origin(up, t, q) < |t| && UpperText(up, t)[q] in up(t[Origin(up, t, q)])
  {
    if q >= |up(t[0])| {
      OriginShows(up, t[1..], q - |up(t[0])|);
    }
  }

  /** Every offset of the upper-cased text is on the line of the character it comes from. */
  lemma {:induction false} OriginLine(up: CaseMap, t: string, q: nat)
    requires KeepsLines(up) && q <= |UpperText(up, t)|
    ensures Newlines(UpperText(up, t)[..q]) == Newlines(t[..Origin(up, t, q)])
  {
    if t != "" {
      var first, u := up(t[0]), UpperText(up, t[1..]);
      if q < |first| {
        assert (first + u)[..q] == first[..q];
        if t[0] == '\n' {
          assert first[..q] == "";
        } else {
          NoNewlines(first[..q]);
        }
      } else {
        var p := Origin(up, t[1..], q - |first|);
        OriginLine(up, t[1..], q - |first|);
        assert (first + u)[..q] == first + u[..q - |first|];
        NewlinesAppend(first, u[..q - |first|]);
        assert t[..1 + p] == [t[0]] + t[1..][..p];
        NewlinesAppend([t[0]], t[1..][..p]);
        FirstNewlines(up, t[0]);
      }
    }
  }

  lemma {:induction false} FirstNewlines(up: CaseMap, c: char)
    requires KeepsLines(up)
    ensures Newlines(up(c)) == Newlines([c])
  {
    assert [c][1..] == "" && UpperText(up, [c]) == up(c) + UpperText(up, [c][1..]);
    UpperNewlines(up, [c]);
    assert up(c) + "" == up(c);
  }

  /** The line of any offset of the text the detector searches is the line of a position in the file itself. */
  lemma {:induction false} SearchedLine(up: CaseMap, s: string, q: nat)
    requires KeepsLines(up) && q <= |UpperText(up, Strip(s))|
    ensures Newlines(UpperText(up, Strip(s))[..q]) == Newlines(s[..Origin(up, Strip(s), q)])
  {
    var p := Origin(up, Strip(s), q);
    OriginLine(up, Strip(s), q);
    forall k | 0 <= k < p
      ensures Strip(s)[..p][k] == '\n' <==> s[..p][k] == '\n'
    {
      StripExact(s, k);
    }
    SameNewlines(Strip(s)[..p], s[..p]);
  }

  // ----- findings

  datatype Finding = DeleteAndSetNotNull(line: nat, table: string) | SetNotNullWithoutNotValid(line: nat)

  function Line(s: string, i: nat): nat
    requires i <= |s|
  {
    1 + Newlines(s[..i])
  }

  /** The findings for given leftmost matches of the three patterns and a given table name. */
  function Report(s: string, delete: Option<nat>, setNotNull: Option<nat>, notValid: Option<nat>, table: string)
    : seq<Finding>
    requires delete.Some? ==> delete.value <= |s|
    requires setNotNull.Some? ==> setNotNull.value <= |s|
  {
    (if delete.Some? && setNotNull.Some? then [DeleteAndSetNotNull(Line(s, delete.value), table)] else []) +
    (if setNotNull.Some? && notValid.None? then [SetNotNullWithoutNotValid(Line(s, setNotNull.value))] else [])
  }

  function Detect(combined: string): seq<Finding> {
    Report(combined, FirstMatch(DeleteFrom, combined, 0), FirstMatch(SetNotNull, combined, 0),
           FirstMatch(NotValid, combined, 0), TableName(combined, 0))
  }

  method ReportFindings(s: string, delete: Option<nat>, setNotNull: Option<nat>, notValid: Option<nat>, table: string)
    returns (findings: seq<Finding>)
    requires delete.Some? ==> delete.value <= |s|
    requires setNotNull.Some? ==> setNotNull.value <= |s|
    ensures findings == Report(s, delete, setNotNull, notValid, table)
  {
    findings := [];
    if delete.Some? && setNotNull.Some? {
      var line := LineOf(s, delete.value);
      findings := findings + [DeleteAndSetNotNull(line, table)];
    }
    if setNotNull.Some? && notValid.None? {
      var line := LineOf(s, setNotNull.value);
      findings := findings + [SetNotNullWithoutNotValid(line)];
    }
  }

  // ----- when a finding is made

  ghost predicate StatementAt(f: Finding, s: string, q: nat) {
    if f.DeleteAndSetNotNull? then DeleteFromAt(s, q) else SetNotNullAt(s, q)
  }

  /** `q` is the leftmost place of the statement that `f` reports, and `f` reports its line. */
  ghost predicate MatchedAt(s: string, f: Finding, q: nat) {
    && q <= |s| && StatementAt(f, s, q) && f.line == Line(s, q)
    && forall k: nat :: k < q ==> !StatementAt(f, s, k)
  }

  ghost predicate FirstAt(p: Pattern, s: string, m: Option<nat>) {
    if m.Some? then MatchesAt(p, s, m.value) && forall k: nat :: k < m.value ==> !MatchesAt(p, s, k)
    else forall k: nat :: !MatchesAt(p, s, k)
  }

  lemma {:induction false} FirstExactly(p: Pattern, s: string)
    ensures FirstAt(p, s, FirstMatch(p, s, 0))
  {
    var m := FirstMatch(p, s, 0);
    FirstMatchIs(p, s, 0);
    if m.Some? {
      MatchesExactly(p, s, m.value);
    }
    forall k: nat | m.Some? ==> k < m.value
      ensures !MatchesAt(p, s, k)
    {
      if k <= |s| {
        MatchesExactly(p, s, k);
        assert !Matches(p, s, k);
      } else if MatchesAt(p, s, k) {
        MatchesWithin(p, s, k);
      }
    }
  }

  lemma {:induction false} SomeExactly(p: Pattern, s: string)
    ensures FirstMatch(p, s, 0).Some? <==> exists k: nat :: MatchesAt(p, s, k)
  {
    FirstExactly(p, s);
  }

  lemma {:induction false} DetectedExactly(s: string)
    ensures (exists f :: f in Detect(s) && f.SetNotNullWithoutNotValid?)
       <==> (exists i: nat :: SetNotNullAt(s, i)) && forall i: nat :: !NotValidAt(s, i)
    ensures (exists f :: f in Detect(s) && f.DeleteAndSetNotNull?)
       <==> (exists i: nat :: DeleteFromAt(s, i)) && exists i: nat :: SetNotNullAt(s, i)
  {
    var d, n, v := FirstMatch(DeleteFrom, s, 0), FirstMatch(SetNotNull, s, 0), FirstMatch(NotValid, s, 0);
    FoundExactly(s);
    ReportedExactly(s, d, n, v, TableName(s, 0));
  }

  lemma {:induction false} FoundExactly(s: string)
    ensures FirstMatch(DeleteFrom, s, 0).Some? <==> exists i: nat :: DeleteFromAt(s, i)
    ensures FirstMatch(SetNotNull, s, 0).Some? <==> exists i: nat :: SetNotNullAt(s, i)
    ensures FirstMatch(NotValid, s, 0).Some? <==> exists i: nat :: NotValidAt(s, i)
  {
    SomeExactly(DeleteFrom, s);
    SomeExactly(SetNotNull, s);
    SomeExactly(NotValid, s);
    forall k: nat
      ensures MatchesAt(DeleteFrom, s, k) == DeleteFromAt(s, k)
      ensures MatchesAt(SetNotNull, s, k) == SetNotNullAt(s, k)
      ensures MatchesAt(NotValid, s, k) == NotValidAt(s, k)
    {
    }
  }

  lemma {:induction false} ReportedExactly(s: string, delete: Option<nat>, setNotNull: Option<nat>,
                                           notValid: Option<nat>, table: string)
    requires delete.Some? ==> delete.value <= |s|
    requires setNotNull.Some? ==> setNotNull.value <= |s|
    ensures var r := Report(s, delete, setNotNull, notValid, table);
      && ((exists f :: f in r && f.SetNotNullWithoutNotValid?) <==> setNotNull.Some? && notValid.None?)
      && ((exists f :: f in r && f.DeleteAndSetNotNull?) <==> delete.Some? && setNotNull.Some?)
  {
    var r := Report(s, delete, setNotNull, notValid, table);
    if setNotNull.Some? && notValid.None? {
      assert r[|r| - 1].SetNotNullWithoutNotValid? && r[|r| - 1] in r;
    }
    if delete.Some? && setNotNull.Some? {
      assert r[0].DeleteAndSetNotNull? && r[0] in r;
    }
  }

  lemma {:induction false} ReportedBy(s: string, delete: Option<nat>, setNotNull: Option<nat>, notValid: Option<nat>,
                                      table: string, f: Finding)
    requires delete.Some? ==> delete.value <= |s|
    requires setNotNull.Some? ==> setNotNull.value <= |s|
    requires f in Report(s, delete, setNotNull, notValid, table)
    ensures var m := if f.DeleteAndSetNotNull? then delete else setNotNull;
      m.Some? && f.line == Line(s, m.value) && (f.DeleteAndSetNotNull? ==> f.table == table)
  {
  }

  lemma {:induction false} MatchedFirst(s: string, f: Finding, q: nat)
    requires q <= |s| && f.line == Line(s, q)
    requires FirstAt(if f.DeleteAndSetNotNull? then DeleteFrom else SetNotNull, s, Some(q))
    ensures MatchedAt(s, f, q)
  {
    var p := if f.DeleteAndSetNotNull? then DeleteFrom else SetNotNull;
    forall k: nat
      ensures StatementAt(f, s, k) == MatchesAt(p, s, k)
    {
    }
  }

  lemma {:induction false} DetectedAt(s: string, f: Finding) returns (q: nat)
    requires f in Detect(s)
    ensures MatchedAt(s, f, q) && (f.DeleteAndSetNotNull? ==> TableIs(s, f.table))
  {
    var d, n, v := FirstMatch(DeleteFrom, s, 0), FirstMatch(SetNotNull, s, 0), FirstMatch(NotValid, s, 0);
    ReportedBy(s, d, n, v, TableName(s, 0), f);
    FirstExactly(if f.DeleteAndSetNotNull? then DeleteFrom else SetNotNull, s);
    TableNameIs(s);
    q := if f.DeleteAndSetNotNull? then d.value else n.value;
    MatchedFirst(s, f, q);
  }

  /**
   * In the upper-cased text without comments: `SET NOT NULL` is reported if and only if it stands there and
   * `NOT VALID` does not; `DELETE FROM` if and only if both it and `SET NOT NULL` do. Each is reported at most once,
   * the deletion first, on the line of its first occurrence.
   */
  method FindUnsafeMigrationPatterns(sql: string, up: CaseMap) returns (findings: seq<Finding>)
    ensures findings == Detect(UpperText(up, Strip(sql)))
    ensures var s := UpperText(up, Strip(sql));
      (exists f :: f in findings && f.SetNotNullWithoutNotValid?)
      <==> (exists i: nat :: SetNotNullAt(s, i)) && forall i: nat :: !NotValidAt(s, i)
    ensures var s := UpperText(up, Strip(sql));
      (exists f :: f in findings && f.DeleteAndSetNotNull?)
      <==> (exists i: nat :: DeleteFromAt(s, i)) && exists i: nat :: SetNotNullAt(s, i)
    ensures var s := UpperText(up, Strip(sql));
      forall f :: f in findings && f.DeleteAndSetNotNull? ==> TableIs(s, f.table)
    ensures var s := UpperText(up, Strip(sql)); forall f :: f in findings ==> exists q :: MatchedAt(s, f, q)
    ensures |findings| <= 2
    ensures |findings| == 2 ==> findings[0].DeleteAndSetNotNull? && !findings[1].DeleteAndSetNotNull?
  {
    var stripped := StripSqlComments(sql);
    var combined := UpperText(up, stripped);
    DetectedExactly(combined);
    findings := ReportFindings(combined, FirstMatch(DeleteFrom, combined, 0), FirstMatch(SetNotNull, combined, 0),
                               FirstMatch(NotValid, combined, 0), TableName(combined, 0));
    forall f | f in findings
      ensures (exists q :: MatchedAt(combined, f, q)) && (f.DeleteAndSetNotNull? ==> TableIs(combined, f.table))
    {
      var q := DetectedAt(combined, f);
    }
  }

  // ----- where it is reported

  /** Position `p` of the file, on line `line`, lies outside comments, and its upper case holds the letter `c`. */
  ghost predicate FoundAt(up: CaseMap, s: string, line: nat, c: char, p: nat) {
    p < |s| && line == 1 + Newlines(s[..p]) && !InComment(s, p) && c in up(s[p])
  }

  function InitialOf(f: Finding): char {
    if f.DeleteAndSetNotNull? then 'D' else 'S'
  }

  lemma {:induction false} MatchFound(up: CaseMap, s: string, f: Finding, q: nat)
    requires KeepsLines(up) && up(' ') == " "
    requires MatchedAt(UpperText(up, Strip(s)), f, q)
    ensures FoundAt(up, s, f.line, InitialOf(f), Origin(up, Strip(s), q))
  {
    var combined := UpperText(up, Strip(s));
    var p := Origin(up, Strip(s), q);
    TagCharacter(combined, if f.DeleteAndSetNotNull? then "DELETE" else "SET", q, 0);
    OriginShows(up, Strip(s), q);
    SearchedLine(up, s, q);
    StripExact(s, p);
  }

  /**
   * Every reported line is the line, in the file, of the character that the leftmost match of the reported
   * statement comes from, even where upper-casing has moved the offsets; that character is outside comments.
   */
  lemma {:induction false} ReportedLines(up: CaseMap, s: string)
    requires KeepsLines(up) && up(' ') == " "
    ensures var combined := UpperText(up, Strip(s));
      forall f :: f in Detect(combined) ==>
        exists q :: MatchedAt(combined, f, q) && FoundAt(up, s, f.line, InitialOf(f), Origin(up, Strip(s), q))
  {
    var combined := UpperText(up, Strip(s));
    forall f | f in Detect(combined)
      ensures exists q :: MatchedAt(combined, f, q) && FoundAt(up, s, f.line, InitialOf(f), Origin(up, Strip(s), q))
    {
      var q := DetectedAt(combined, f);
      MatchFound(up, s, f, q);
    }
  }

  /** What comments say changes neither the findings nor the lines they are reported on. */
  lemma {:induction false} CommentsDoNotChangeFindings(up: CaseMap, s: string, t: string)
    requires SameOutsideComments(s, t, 0)
    ensures Detect(UpperText(up, Strip(s))) == Detect(UpperText(up, Strip(t)))
  {
    CommentsDoNotMatter(s, t, 0);
  }
}
