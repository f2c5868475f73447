/** The detector's patterns, as they are searched for, and what an occurrence of each looks like in the text. */
module MigrationPatterns {
  import opened JsText
  import opened Options
  import opened SqlComments

  function SpaceEnd(s: string, i: nat): (e: nat)
    requires i <= |s|
    ensures i <= e <= |s|
    ensures forall k :: i <= k < e ==> IsSpace(s[k])
    ensures e < |s| ==> !IsSpace(s[e])
    decreases |s| - i
  {
    if i == |s| || !IsSpace(s[i]) then i else SpaceEnd(s, i + 1)
  }

  /** `\b` at `i`: exactly one of the characters on either side is a word character. */
  predicate WordBreak(s: string, i: nat)
    requires i <= |s|
  {
    (i > 0 && IsWordChar(s[i - 1])) != (i < |s| && IsWordChar(s[i]))
  }

  /** The end of the word `w` at `i`, or 0 if it is not there. */
  function FirstEnd(s: string, i: nat, w: string): (e: nat)
    ensures e <= |s|
  {
    if TagAt(s, w, i) then i + |w| else 0
  }

  /** The end of `\s+ w` behind a match that ends at `e`, or 0 if there is none; `e` is 0 if nothing has matched. */
  function NextEnd(s: string, e: nat, w: string): (n: nat)
    requires e <= |s|
    ensures n <= |s|
  {
    if e > 0 && SpaceEnd(s, e) > e then FirstEnd(s, SpaceEnd(s, e), w) else 0
  }

  datatype Pattern = DeleteFrom | SetNotNull | NotValid

  function WordsEnd(p: Pattern, s: string, i: nat): (e: nat)
    ensures e <= |s|
  {
    match p
    case DeleteFrom => NextEnd(s, FirstEnd(s, i, "DELETE"), "FROM")
    case SetNotNull => NextEnd(s, NextEnd(s, FirstEnd(s, i, "SET"), "NOT"), "NULL")
    case NotValid => NextEnd(s, FirstEnd(s, i, "NOT"), "VALID")
  }

  /** `\b` and the words, followed by `\s+` or by `\b`. */
  predicate Matches(p: Pattern, s: string, i: nat)
    requires i <= |s|
  {
    && WordBreak(s, i)
    && var e := WordsEnd(p, s, i);
       e > i && if p.DeleteFrom? then e < |s| && IsSpace(s[e]) else WordBreak(s, e)
  }

  /** The leftmost match, as `exec` reports it. */
  function FirstMatch(p: Pattern, s: string, i: nat): (m: Option<nat>)
    requires i <= |s|
    ensures m.Some? ==> i <= m.value <= |s|
    decreases |s| - i
  {
    if Matches(p, s, i) then Some(i)
    else if i == |s| then None
    else FirstMatch(p, s, i + 1)
  }

  lemma {:induction false} FirstMatchIs(p: Pattern, s: string, i: nat)
    requires i <= |s|
    ensures var m := FirstMatch(p, s, i);
      && (m.Some? ==> Matches(p, s, m.value))
      && forall k :: i <= k < (if m.Some? then m.value else |s| + 1) ==> !Matches(p, s, k)
    decreases |s| - i
  {
    if !Matches(p, s, i) && i < |s| {
      FirstMatchIs(p, s, i + 1);
    }
  }

  predicate IsNameChar(c: char) {
    IsWordChar(c) || c == '.'
  }

  function NameEnd(s: string, i: nat): (e: nat)
    requires i <= |s|
    ensures i <= e <= |s|
    ensures forall k :: i <= k < e ==> IsNameChar(s[k])
    ensures e < |s| ==> !IsNameChar(s[e])
    decreases |s| - i
  {
    if i == |s| || !IsNameChar(s[i]) then i else NameEnd(s, i + 1)
  }

  function LowerAscii(s: string): string {
    if s == "" then ""
    else [if 'A' <= s[0] <= 'Z' then (s[0] as int + 32) as char else s[0]] + LowerAscii(s[1..])
  }

  /** Where the white space behind the words of a `DELETE FROM` at `i` ends. */
  function NameStart(s: string, i: nat): (b: nat)
    ensures b <= |s|
  {
    SpaceEnd(s, WordsEnd(DeleteFrom, s, i))
  }

  predicate Names(s: string, i: nat)
    requires i <= |s|
  {
    Matches(DeleteFrom, s, i) && NameEnd(s, NameStart(s, i)) > NameStart(s, i)
  }

  /** The name after the first `DELETE FROM` that an unquoted name follows. */
  function TableName(s: string, i: nat): string
    requires i <= |s|
    decreases |s| - i
  {
    if Names(s, i) then LowerAscii(s[NameStart(s, i)..NameEnd(s, NameStart(s, i))])
    else if i == |s| then "<unknown>"
    else TableName(s, i + 1)
  }

  // ----- the same, character by character

  ghost predicate WordLetter(c: char) {
    'a' <= c <= 'z' || 'A' <= c <= 'Z' || '0' <= c <= '9' || c == '_'
  }

  /** No word goes on to the left of `i`, or to the right of it. */
  ghost predicate StartsWord(s: string, i: nat) {
    0 < i <= |s| ==> !WordLetter(s[i - 1])
  }

  ghost predicate EndsWord(s: string, e: nat) {
    e < |s| ==> !WordLetter(s[e])
  }

  /** Nothing but white space, and some of it, from `i` to `j`. */
  ghost predicate Gap(s: string, i: nat, j: nat) {
    i < j <= |s| && forall k :: i <= k < j ==> IsSpace(s[k])
  }

  /** The word `w` at `i`, white space, and the word `w'` at `a`, followed by white space or by the end of the word. */
  ghost predicate PairAt(s: string, i: nat, w: string, a: nat, w': string, spaceAfter: bool) {
    && StartsWord(s, i) && TagAt(s, w, i) && Gap(s, i + |w|, a) && TagAt(s, w', a)
    && if spaceAfter then a + |w'| < |s| && IsSpace(s[a + |w'|]) else EndsWord(s, a + |w'|)
  }

  /** Three whole words at `i`, `a` and `b`, white space between them. */
  ghost predicate TripleAt(s: string, i: nat, w: string, a: nat, w': string, b: nat, w'': string) {
    && StartsWord(s, i) && TagAt(s, w, i) && Gap(s, i + |w|, a) && TagAt(s, w', a)
    && Gap(s, a + |w'|, b) && TagAt(s, w'', b) && EndsWord(s, b + |w''|)
  }

  ghost predicate DeleteFromAt(s: string, i: nat) {
    exists a: nat :: PairAt(s, i, "DELETE", a, "FROM", true)
  }

  ghost predicate SetNotNullAt(s: string, i: nat) {
    exists a: nat, b: nat :: TripleAt(s, i, "SET", a, "NOT", b, "NULL")
  }

  ghost predicate NotValidAt(s: string, i: nat) {
    exists a: nat :: PairAt(s, i, "NOT", a, "VALID", false)
  }

  /** A `DELETE FROM` at `i` and, after its white space, the longest name from `b` to `e`. */
  ghost predicate NamedBy(s: string, i: nat, a: nat, b: nat, e: nat) {
    && PairAt(s, i, "DELETE", a, "FROM", true) && Gap(s, a + 4, b) && b < e <= |s|
    && (forall k :: b <= k < e ==> WordLetter(s[k]) || s[k] == '.')
    && (e < |s| ==> !WordLetter(s[e]) && s[e] != '.')
  }

  ghost predicate NamedAt(s: string, i: nat) {
    exists a: nat, b: nat, e: nat :: NamedBy(s, i, a, b, e)
  }

  ghost predicate IsLower(t: string, s: string) {
    && |t| == |s|
    && forall k :: 0 <= k < |s| ==>
         t[k] as int == s[k] as int + if 'A' <= s[k] <= 'Z' then 32 else 0
  }

  /** At `j` is the first `DELETE FROM` from `i` on that a name follows, and `table` is that name in lower case. */
  ghost predicate TableBy(s: string, i: nat, table: string, j: nat, a: nat, b: nat, e: nat) {
    && j >= i && NamedBy(s, j, a, b, e) && IsLower(table, s[b..e])
    && forall k: nat :: i <= k < j ==> !NamedAt(s, k)
  }

  /** The name behind the first `DELETE FROM` that a name follows, in lower case, or `<unknown>`. */
  ghost predicate TableIs(s: string, table: string) {
    || (table == "<unknown>" && forall j: nat :: !NamedAt(s, j))
    || exists j: nat, a: nat, b: nat, e: nat :: TableBy(s, 0, table, j, a, b, e)
  }

  // ----- the two agree

  lemma {:induction false} SpaceEndBy(s: string, i: nat, j: nat)
    requires i <= j < |s| && !IsSpace(s[j]) && forall k :: i <= k < j ==> IsSpace(s[k])
    ensures SpaceEnd(s, i) == j
    decreases j - i
  {
    if i < j {
      SpaceEndBy(s, i + 1, j);
    }
  }

  ghost predicate IsWord(w: string) {
    w != "" && forall k :: 0 <= k < |w| ==> WordLetter(w[k])
  }

  lemma {:induction false} LetterIsNoSpace(c: char)
    requires WordLetter(c)
    ensures !IsSpace(c)
  {
    SpaceExactly(c);
  }

  lemma {:induction false} TagCharacter(s: string, w: string, i: nat, k: nat)
    requires TagAt(s, w, i) && k < |w|
    ensures i + k < |s| && s[i + k] == w[k]
  {
    assert s[i..i + |w|][k] == w[k];
  }

  lemma {:induction false} BreakBefore(s: string, w: string, i: nat)
    requires TagAt(s, w, i) && IsWord(w)
    ensures WordBreak(s, i) <==> StartsWord(s, i)
  {
    TagCharacter(s, w, i, 0);
  }

  lemma {:induction false} BreakAfter(s: string, w: string, i: nat)
    requires TagAt(s, w, i) && IsWord(w)
    ensures WordBreak(s, i + |w|) <==> EndsWord(s, i + |w|)
  {
    TagCharacter(s, w, i, |w| - 1);
  }

  lemma {:induction false} NextIs(s: string, e: nat, a: nat, w: string)
    requires e > 0 && Gap(s, e, a) && TagAt(s, w, a) && IsWord(w)
    ensures NextEnd(s, e, w) == a + |w|
  {
    TagCharacter(s, w, a, 0);
    LetterIsNoSpace(w[0]);
    SpaceEndBy(s, e, a);
  }

  lemma {:induction false} NextFound(s: string, e: nat, w: string) returns (a: nat)
    requires e <= |s| && NextEnd(s, e, w) > 0
    ensures e > 0 && Gap(s, e, a) && TagAt(s, w, a) && NextEnd(s, e, w) == a + |w|
  {
    a := SpaceEnd(s, e);
  }

  lemma {:induction false} FirstFound(s: string, i: nat, w: string)
    requires FirstEnd(s, i, w) > 0
    ensures TagAt(s, w, i) && FirstEnd(s, i, w) == i + |w|
  {
  }

  lemma {:induction false} TwoEnd(s: string, i: nat, w: string, a: nat, w': string)
    requires TagAt(s, w, i) && w != "" && Gap(s, i + |w|, a) && TagAt(s, w', a) && IsWord(w')
    ensures NextEnd(s, FirstEnd(s, i, w), w') == a + |w'|
  {
    NextIs(s, i + |w|, a, w');
  }

  lemma {:induction false} TwoFound(s: string, i: nat, w: string, w': string) returns (a: nat)
    requires NextEnd(s, FirstEnd(s, i, w), w') > 0
    ensures TagAt(s, w, i) && Gap(s, i + |w|, a) && TagAt(s, w', a)
    ensures NextEnd(s, FirstEnd(s, i, w), w') == a + |w'|
  {
    a := NextFound(s, FirstEnd(s, i, w), w');
    FirstFound(s, i, w);
  }

  lemma {:induction false} PairEnd(s: string, i: nat, w: string, a: nat, w': string, spaceAfter: bool)
    requires PairAt(s, i, w, a, w', spaceAfter) && IsWord(w) && IsWord(w')
    ensures NextEnd(s, FirstEnd(s, i, w), w') == a + |w'| && WordBreak(s, i)
    ensures !spaceAfter ==> WordBreak(s, a + |w'|)
  {
    TwoEnd(s, i, w, a, w');
    BreakBefore(s, w, i);
    BreakAfter(s, w', a);
  }

  lemma {:induction false} PairFound(s: string, i: nat, w: string, w': string, spaceAfter: bool) returns (a: nat)
    requires i <= |s| && IsWord(w) && IsWord(w') && WordBreak(s, i)
    requires var e := NextEnd(s, FirstEnd(s, i, w), w');
      e > 0 && if spaceAfter then e < |s| && IsSpace(s[e]) else WordBreak(s, e)
    ensures PairAt(s, i, w, a, w', spaceAfter)
  {
    a := TwoFound(s, i, w, w');
    BreakBefore(s, w, i);
    BreakAfter(s, w', a);
  }

  lemma {:induction false} TripleEnd(s: string, i: nat, w: string, a: nat, w': string, b: nat, w'': string)
    requires TripleAt(s, i, w, a, w', b, w'') && IsWord(w) && IsWord(w') && IsWord(w'')
    ensures NextEnd(s, NextEnd(s, FirstEnd(s, i, w), w'), w'') == b + |w''|
  {
    TwoEnd(s, i, w, a, w');
    NextIs(s, a + |w'|, b, w'');
  }

  lemma {:induction false} TripleBreaks(s: string, i: nat, w: string, a: nat, w': string, b: nat, w'': string)
    requires TripleAt(s, i, w, a, w', b, w'') && IsWord(w) && IsWord(w') && IsWord(w'')
    ensures WordBreak(s, i) && WordBreak(s, b + |w''|)
  {
    BreakBefore(s, w, i);
    BreakAfter(s, w'', b);
  }

  lemma {:induction false} TripleFound(s: string, i: nat, w: string, w': string, w'': string)
    returns (a: nat, b: nat)
    requires i <= |s| && IsWord(w) && IsWord(w') && IsWord(w'') && WordBreak(s, i)
    requires var e := NextEnd(s, NextEnd(s, FirstEnd(s, i, w), w'), w''); e > 0 && WordBreak(s, e)
    ensures TripleAt(s, i, w, a, w', b, w'')
  {
    b := NextFound(s, NextEnd(s, FirstEnd(s, i, w), w'), w'');
    a := TwoFound(s, i, w, w');
    BreakBefore(s, w, i);
    BreakAfter(s, w'', b);
  }

  lemma {:induction false} TheWords()
    ensures IsWord("DELETE") && IsWord("FROM") && IsWord("SET") && IsWord("NOT") && IsWord("NULL") && IsWord("VALID")
  {
  }

  lemma {:induction false} DeleteFromExactly(s: string, i: nat)
    requires i <= |s|
    ensures Matches(DeleteFrom, s, i) <==> DeleteFromAt(s, i)
    ensures forall a: nat :: PairAt(s, i, "DELETE", a, "FROM", true) ==> WordsEnd(DeleteFrom, s, i) == a + 4
  {
    TheWords();
    forall a: nat | PairAt(s, i, "DELETE", a, "FROM", true)
      ensures WordsEnd(DeleteFrom, s, i) == a + 4 && Matches(DeleteFrom, s, i)
    {
      PairEnd(s, i, "DELETE", a, "FROM", true);
    }
    if Matches(DeleteFrom, s, i) {
      var a := PairFound(s, i, "DELETE", "FROM", true);
    }
  }

  lemma {:induction false} NotValidExactly(s: string, i: nat)
    requires i <= |s|
    ensures Matches(NotValid, s, i) <==> NotValidAt(s, i)
  {
    TheWords();
    forall a: nat | PairAt(s, i, "NOT", a, "VALID", false)
      ensures Matches(NotValid, s, i)
    {
      PairEnd(s, i, "NOT", a, "VALID", false);
    }
    if Matches(NotValid, s, i) {
      var a := PairFound(s, i, "NOT", "VALID", false);
    }
  }

  lemma {:induction false} SetNotNullExactly(s: string, i: nat)
    requires i <= |s|
    ensures Matches(SetNotNull, s, i) <==> SetNotNullAt(s, i)
  {
    TheWords();
    forall a: nat, b: nat | TripleAt(s, i, "SET", a, "NOT", b, "NULL")
      ensures Matches(SetNotNull, s, i)
    {
      TripleEnd(s, i, "SET", a, "NOT", b, "NULL");
      TripleBreaks(s, i, "SET", a, "NOT", b, "NULL");
    }
    if Matches(SetNotNull, s, i) {
      var a, b := TripleFound(s, i, "SET", "NOT", "NULL");
    }
  }

  ghost predicate MatchesAt(p: Pattern, s: string, i: nat) {
    match p
    case DeleteFrom => DeleteFromAt(s, i)
    case SetNotNull => SetNotNullAt(s, i)
    case NotValid => NotValidAt(s, i)
  }

  /** What is searched for is what the text is said to hold. */
  lemma {:induction false} MatchesExactly(p: Pattern, s: string, i: nat)
    requires i <= |s|
    ensures Matches(p, s, i) <==> MatchesAt(p, s, i)
  {
    match p
    case DeleteFrom => DeleteFromExactly(s, i);
    case SetNotNull => SetNotNullExactly(s, i);
    case NotValid => NotValidExactly(s, i);
  }

  lemma {:induction false} MatchesWithin(p: Pattern, s: string, i: nat)
    requires MatchesAt(p, s, i)
    ensures i <= |s|
  {
  }

  lemma {:induction false} LowerAsciiIs(s: string)
    ensures IsLower(LowerAscii(s), s)
  {
    if s != "" {
      LowerAsciiIs(s[1..]);
    }
  }

  lemma {:induction false} NameEndBy(s: string, i: nat, e: nat)
    requires i <= e <= |s| && (e < |s| ==> !IsNameChar(s[e])) && forall k :: i <= k < e ==> IsNameChar(s[k])
    ensures NameEnd(s, i) == e
    decreases e - i
  {
    if i < e {
      NameEndBy(s, i + 1, e);
    }
  }

  lemma {:induction false} NameIsNoSpace(c: char)
    requires IsNameChar(c)
    ensures !IsSpace(c)
  {
    SpaceExactly(c);
  }

  lemma {:induction false} NamedFound(s: string, i: nat, a: nat, b: nat, e: nat)
    requires NamedBy(s, i, a, b, e)
    ensures Names(s, i) && b == NameStart(s, i) && e == NameEnd(s, b)
  {
    DeleteFromExactly(s, i);
    NameIsNoSpace(s[b]);
    SpaceEndBy(s, a + 4, b);
    NameEndBy(s, b, e);
  }

  lemma {:induction false} FoundNamed(s: string, i: nat) returns (a: nat)
    requires i <= |s| && Names(s, i)
    ensures NamedBy(s, i, a, NameStart(s, i), NameEnd(s, NameStart(s, i)))
  {
    DeleteFromExactly(s, i);
    a :| PairAt(s, i, "DELETE", a, "FROM", true);
  }

  /** Where the name is found, if it is. */
  datatype Place = Place(j: nat, a: nat, b: nat, e: nat) | Nowhere

  ghost predicate TableAt(s: string, i: nat, table: string, p: Place) {
    match p
    case Place(j, a, b, e) => TableBy(s, i, table, j, a, b, e)
    case Nowhere => table == "<unknown>" && forall j: nat :: j >= i ==> !NamedAt(s, j)
  }

  lemma {:induction false} TableLater(s: string, i: nat, table: string, p: Place)
    requires TableAt(s, i + 1, table, p) && !NamedAt(s, i)
    ensures TableAt(s, i, table, p)
  {
  }

  lemma {:induction false} NameHere(s: string, i: nat) returns (p: Place)
    requires i <= |s| && Names(s, i)
    ensures TableAt(s, i, LowerAscii(s[NameStart(s, i)..NameEnd(s, NameStart(s, i))]), p)
  {
    var b := NameStart(s, i);
    var a := FoundNamed(s, i);
    LowerAsciiIs(s[b..NameEnd(s, b)]);
    p := Place(i, a, b, NameEnd(s, b));
  }

  lemma {:induction false} NotNamed(s: string, i: nat)
    requires i <= |s| && !Names(s, i)
    ensures !NamedAt(s, i)
  {
    if a: nat, b: nat, e: nat :| NamedBy(s, i, a, b, e) {
      NamedFound(s, i, a, b, e);
    }
  }

  lemma {:induction false} NoneAtEnd(s: string)
    requires !NamedAt(s, |s|)
    ensures TableAt(s, |s|, "<unknown>", Nowhere)
  {
  }

  lemma {:induction false} TableFound(s: string, i: nat) returns (p: Place)
    requires i <= |s|
    ensures TableAt(s, i, TableName(s, i), p)
    decreases |s| - i
  {
    if Names(s, i) {
      p := NameHere(s, i);
    } else {
      NotNamed(s, i);
      if i == |s| {
        NoneAtEnd(s);
        p := Nowhere;
      } else {
        p := TableFound(s, i + 1);
        TableLater(s, i, TableName(s, i + 1), p);
      }
    }
  }

  lemma {:induction false} TableNameIs(s: string)
    ensures TableIs(s, TableName(s, 0))
  {
    var p := TableFound(s, 0);
    match p {
      case Place(j, a, b, e) => assert TableBy(s, 0, TableName(s, 0), j, a, b, e);
      case Nowhere =>
    }
  }
}
