/** The SQL comment stripper: a grammar of tokens, the scanning loop, and what stripping keeps. */
module SqlComments {

  datatype Kind = LineComment | BlockComment | Quoted | DollarQuoted | Plain

  predicate At(s: string, i: nat, c: char) {
    i < |s| && s[i] == c
  }

  // ----- the grammar

  predicate LineOpens(s: string, i: nat) {
    At(s, i, '-') && At(s, i + 1, '-')
  }

  predicate BlockOpens(s: string, i: nat) {
    At(s, i, '/') && At(s, i + 1, '*')
  }

  predicate BlockCloses(s: string, i: nat) {
    At(s, i, '*') && At(s, i + 1, '/')
  }

  /** A line comment runs up to, and not over, the next newline. */
  function LineEnd(s: string, i: nat): (e: nat)
    requires i <= |s|
    ensures i <= e <= |s|
    ensures forall k :: i <= k < e ==> s[k] != '\n'
    ensures e < |s| ==> s[e] == '\n'
    decreases |s| - i
  {
    if i == |s| || s[i] == '\n' then i else LineEnd(s, i + 1)
  }

  /** The end of a block comment whose opener has been read: a body of characters and nested comments. */
  function BlockEnd(s: string, i: nat): (e: nat)
    requires i <= |s|
    ensures i <= e <= |s|
    decreases |s| - i
  {
    if i == |s| then i
    else if BlockOpens(s, i) then BlockEnd(s, BlockEnd(s, i + 2))
    else if BlockCloses(s, i) then i + 2
    else BlockEnd(s, i + 1)
  }

  /** The end of a quoted string or identifier whose opener has been read; a doubled quote stays inside. */
  function QuoteEnd(s: string, i: nat, quote: char): (e: nat)
    requires i <= |s|
    ensures i <= e <= |s|
    decreases |s| - i
  {
    if i == |s| then i
    else if s[i] != quote then QuoteEnd(s, i + 1, quote)
    else if At(s, i + 1, quote) then QuoteEnd(s, i + 2, quote)
    else i + 1
  }

  predicate IsLetterOrUnderscore(c: char) {
    'a' <= c <= 'z' || 'A' <= c <= 'Z' || c == '_'
  }

  predicate IsWordChar(c: char) {
    IsLetterOrUnderscore(c) || '0' <= c <= '9'
  }

  function WordEnd(s: string, i: nat): (e: nat)
    requires i <= |s|
    ensures i <= e <= |s|
    ensures forall k :: i <= k < e ==> IsWordChar(s[k])
    ensures e < |s| ==> !IsWordChar(s[e])
    decreases |s| - i
  {
    if i == |s| || !IsWordChar(s[i]) then i else WordEnd(s, i + 1)
  }

  /** The end of the tag `$$` or `$name$` at `i`, or `i` itself when there is none. */
  function TagEnd(s: string, i: nat): (e: nat)
    requires At(s, i, '$')
    ensures i <= e <= |s|
  {
    if At(s, i + 1, '$') then i + 2
    else if i + 1 < |s| && IsLetterOrUnderscore(s[i + 1]) then
      var e := WordEnd(s, i + 2);
      if At(s, e, '$') then e + 1 else i
    else i
  }

  /** The end of the first occurrence of `tag` at or after `i`, or of the text. */
  function EndOfFirst(s: string, tag: string, i: nat): (e: nat)
    requires i <= |s|
    ensures i <= e <= |s|
    decreases |s| - i
  {
    if i + |tag| > |s| then |s|
    else if s[i..i + |tag|] == tag then i + |tag|
    else if i == |s| then i
    else EndOfFirst(s, tag, i + 1)
  }

  function KindAt(s: string, i: nat): Kind
    requires i < |s|
  {
    if LineOpens(s, i) then LineComment
    else if BlockOpens(s, i) then BlockComment
    else if s[i] == '\'' || s[i] == '"' then Quoted
    else if s[i] == '$' && TagEnd(s, i) > i then DollarQuoted
    else Plain
  }

  predicate IsComment(s: string, i: nat)
    requires i < |s|
  {
    KindAt(s, i).LineComment? || KindAt(s, i).BlockComment?
  }

  function TokenEnd(s: string, i: nat): (e: nat)
    requires i < |s|
    ensures i < e <= |s|
  {
    match KindAt(s, i)
    case LineComment => LineEnd(s, i + 1)
    case BlockComment => BlockEnd(s, i + 2)
    case Quoted => QuoteEnd(s, i + 1, s[i])
    case DollarQuoted => EndOfFirst(s, s[i..TagEnd(s, i)], TagEnd(s, i))
    case Plain => i + 1
  }

  function Blank(s: string): (b: string)
    ensures |b| == |s|
    ensures forall k :: 0 <= k < |s| ==> b[k] == if s[k] == '\n' then '\n' else ' '
  {
    seq(|s|, k requires 0 <= k < |s| => if s[k] == '\n' then '\n' else ' ')
  }

  function Rendered(s: string, i: nat): (r: string)
    requires i < |s|
    ensures |r| == TokenEnd(s, i) - i
  {
    if IsComment(s, i) then Blank(s[i..TokenEnd(s, i)]) else s[i..TokenEnd(s, i)]
  }

  /** The text from token boundary `i` on, every comment blanked. */
  function StripFrom(s: string, i: nat): (r: string)
    requires i <= |s|
    ensures |r| == |s| - i
    decreases |s| - i
  {
    if i == |s| then "" else Rendered(s, i) + StripFrom(s, TokenEnd(s, i))
  }

  function Strip(s: string): (r: string)
    ensures |r| == |s|
  {
    StripFrom(s, 0)
  }

  // ----- the scanning loop

  /** `depth` block comments are open at `i`: where the outermost of them ends. */
  function Unwound(s: string, i: nat, depth: nat): (e: nat)
    requires i <= |s|
    ensures i <= e <= |s|
    decreases depth
  {
    if depth == 0 then i else Unwound(s, BlockEnd(s, i), depth - 1)
  }

  lemma {:induction false} UnwoundAtEnd(s: string, depth: nat)
    ensures Unwound(s, |s|, depth) == |s|
  {
    if depth > 0 {
      UnwoundAtEnd(s, depth - 1);
    }
  }

  lemma {:induction false} BlankSnoc(s: string, i: nat, j: nat, k: nat)
    requires i <= j <= k <= |s|
    ensures Blank(s[i..j]) + Blank(s[j..k]) == Blank(s[i..k])
  {
  }

  /** The line-comment loop: blanks up to the newline. */
  method SkipLine(sql: string, start: nat) returns (out: string, i: nat)
    requires start < |sql| && LineOpens(sql, start)
    ensures i == TokenEnd(sql, start) && out == Rendered(sql, start)
  {
    out, i := "", start;
    while i < |sql| && sql[i] != '\n'
      invariant start <= i <= |sql| && LineEnd(sql, i) == LineEnd(sql, start)
      invariant out == Blank(sql[start..i])
    {
      BlankSnoc(sql, start, i, i + 1);
      out := out + " ";
      i := i + 1;
    }
  }

  /** The block-comment loop: a depth counter in place of the grammar's recursion. */
  method SkipBlock(sql: string, start: nat) returns (out: string, i: nat)
    requires start < |sql| && BlockOpens(sql, start)
    ensures i == TokenEnd(sql, start) && out == Rendered(sql, start)
  {
    out, i := "", start;
    var depth: nat := 0;
    while i < |sql|
      invariant start <= i <= |sql|
      invariant BlockState(sql, start, i, depth)
      invariant out == Blank(sql[start..i])
    {
      BlockStep(sql, start, i, depth);
      BlanksGrow(sql, start, i);
      if BlockOpens(sql, i) {
        depth := depth + 1;
        out := out + "  ";
        i := i + 2;
      } else if BlockCloses(sql, i) {
        depth := depth - 1;
        out := out + "  ";
        i := i + 2;
        if depth == 0 { return; }
      } else {
        out := out + if sql[i] == '\n' then "\n" else " ";
        i := i + 1;
      }
    }
    UnwoundAtEnd(sql, depth);
  }

  /** The loop's position `i` and depth, against the end the grammar gives the comment. */
  ghost predicate BlockState(s: string, start: nat, i: nat, depth: nat)
    requires start < |s| && BlockOpens(s, start) && i <= |s|
  {
    if depth == 0 then i == start else Unwound(s, i, depth) == TokenEnd(s, start)
  }

  lemma {:induction false} BlockStep(s: string, start: nat, i: nat, depth: nat)
    requires start < |s| && BlockOpens(s, start) && i < |s| && BlockState(s, start, i, depth)
    ensures BlockOpens(s, i) ==> BlockState(s, start, i + 2, depth + 1)
    ensures !BlockOpens(s, i) ==> depth > 0
    ensures BlockCloses(s, i) && depth > 1 ==> BlockState(s, start, i + 2, depth - 1)
    ensures BlockCloses(s, i) && depth == 1 ==> i + 2 == TokenEnd(s, start)
    ensures !BlockOpens(s, i) && !BlockCloses(s, i) ==> BlockState(s, start, i + 1, depth)
  {
    if depth == 0 {
      assert Unwound(s, i + 2, 1) == Unwound(s, BlockEnd(s, i + 2), 0);
    } else if depth == 1 {
      assert Unwound(s, i, 1) == Unwound(s, BlockEnd(s, i), 0) == BlockEnd(s, i);
    }
  }

  lemma {:induction false} BlanksGrow(s: string, start: nat, i: nat)
    requires start <= i < |s|
    ensures Blank(s[start..i + 1]) == Blank(s[start..i]) + if s[i] == '\n' then "\n" else " "
    ensures BlockOpens(s, i) || BlockCloses(s, i) ==> Blank(s[start..i + 2]) == Blank(s[start..i]) + "  "
  {
  }

  /** The quote loop: verbatim up to the quote that is not doubled. */
  method CopyQuoted(sql: string, start: nat) returns (out: string, i: nat)
    requires start < |sql| && KindAt(sql, start).Quoted?
    ensures i == TokenEnd(sql, start) && out == Rendered(sql, start)
  {
    var ch := sql[start];
    out, i := [ch], start + 1;
    while i < |sql|
      invariant start < i <= |sql| && QuoteEnd(sql, i, ch) == TokenEnd(sql, start)
      invariant out == sql[start..i]
    {
      CopyGrows(sql, start, i);
      if sql[i] == ch {
        if At(sql, i + 1, ch) {
          out := out + [ch, ch];
          i := i + 2;
          continue;
        }
        out := out + [ch];
        i := i + 1;
        return;
      }
      out := out + [sql[i]];
      i := i + 1;
    }
  }

  lemma {:induction false} CopyGrows(s: string, start: nat, i: nat)
    requires start <= i < |s|
    ensures s[start..i + 1] == s[start..i] + [s[i]]
    ensures At(s, i + 1, s[i]) ==> s[start..i + 2] == s[start..i] + [s[i], s[i]]
  {
  }

  /** A dollar-quoted string through its closing tag, or else one character. */
  method CopyOther(sql: string, start: nat) returns (out: string, i: nat)
    requires start < |sql| && (KindAt(sql, start).DollarQuoted? || KindAt(sql, start).Plain?)
    ensures i == TokenEnd(sql, start) && out == Rendered(sql, start)
  {
    i := start + 1;
    if sql[start] == '$' && TagEnd(sql, start) > start {
      var tag := sql[start..TagEnd(sql, start)];
      i := EndOfFirst(sql, tag, start + |tag|);
    }
    out := sql[start..i];
  }

  lemma {:induction false} StripStep(s: string, i: nat, e: nat, done: string, piece: string)
    requires i < |s| && e == TokenEnd(s, i) && piece == Rendered(s, i)
    ensures done + StripFrom(s, i) == done + piece + StripFrom(s, e)
  {
    assert done + (piece + StripFrom(s, e)) == done + piece + StripFrom(s, e);
  }

  method StripSqlComments(sql: string) returns (out: string)
    ensures out == Strip(sql)
  {
    out := "";
    var i := 0;
    while i < |sql|
      invariant i <= |sql| && out + StripFrom(sql, i) == Strip(sql)
    {
      var piece: string;
      ghost var was, done := i, out;
      if LineOpens(sql, i) {
        piece, i := SkipLine(sql, i);
      } else if BlockOpens(sql, i) {
        piece, i := SkipBlock(sql, i);
      } else if sql[i] == '\'' || sql[i] == '"' {
        piece, i := CopyQuoted(sql, i);
      } else {
        piece, i := CopyOther(sql, i);
      }
      out := out + piece;
      StripStep(sql, was, i, done, piece);
    }
  }

  // ----- what stripping does, position by position

  /** Whether position `k` lies inside a comment token. */
  predicate InCommentFrom(s: string, i: nat, k: nat)
    requires i <= k < |s|
    decreases |s| - i
  {
    if k < TokenEnd(s, i) then IsComment(s, i) else InCommentFrom(s, TokenEnd(s, i), k)
  }

  predicate InComment(s: string, k: nat)
    requires k < |s|
  {
    InCommentFrom(s, 0, k)
  }

  lemma {:induction false} StripFromAt(s: string, i: nat, k: nat)
    requires i <= k < |s|
    ensures StripFrom(s, i)[k - i] == if InCommentFrom(s, i, k) && s[k] != '\n' then ' ' else s[k]
    decreases |s| - i
  {
    var e := TokenEnd(s, i);
    ConcatAt(Rendered(s, i), StripFrom(s, e), k - i);
    if k >= e {
      StripFromAt(s, e, k);
      assert InCommentFrom(s, i, k) == InCommentFrom(s, e, k);
    } else {
      RenderedAt(s, i, k);
    }
  }

  lemma {:induction false} RenderedAt(s: string, i: nat, k: nat)
    requires i <= k < |s| && k < TokenEnd(s, i)
    ensures Rendered(s, i)[k - i] == if IsComment(s, i) && s[k] != '\n' then ' ' else s[k]
  {
    assert s[i..TokenEnd(s, i)][k - i] == s[k];
  }

  lemma {:induction false} ConcatAt(a: string, b: string, j: nat)
    requires j < |a + b|
    ensures (a + b)[j] == if j < |a| then a[j] else b[j - |a|]
  {
  }

  /** No offset moves; comment characters other than newlines become blanks, everything else stays. */
  lemma {:induction false} StripExact(s: string, k: nat)
    requires k < |s|
    ensures Strip(s)[k] == if InComment(s, k) && s[k] != '\n' then ' ' else s[k]
    ensures Strip(s)[k] == '\n' <==> s[k] == '\n'
  {
    StripFromAt(s, 0, k);
  }

  // ----- what starts a token, and where a tag ends

  /**
   * The text from `i` to `e` is a dollar tag: two dollar signs with nothing between them, or a letter or underscore
   * and then letters, digits and underscores.
   */
  ghost predicate TagBetween(s: string, i: nat, e: nat) {
    && i < e < |s| && s[i] == '$' && s[e] == '$'
    && (e > i + 1 ==> 'a' <= s[i + 1] <= 'z' || 'A' <= s[i + 1] <= 'Z' || s[i + 1] == '_')
    && forall k :: i < k < e ==> 'a' <= s[k] <= 'z' || 'A' <= s[k] <= 'Z' || s[k] == '_' || '0' <= s[k] <= '9'
  }

  /** A tag has one end only, and that is the end that is read. */
  lemma {:induction false} TagEndExactly(s: string, i: nat, e: nat)
    requires TagBetween(s, i, e)
    ensures TagEnd(s, i) == e + 1
  {
    if e > i + 1 {
      WordEndBy(s, i + 2, e);
    }
  }

  lemma {:induction false} WordEndBy(s: string, i: nat, e: nat)
    requires i <= e < |s| && !IsWordChar(s[e]) && forall k :: i <= k < e ==> IsWordChar(s[k])
    ensures WordEnd(s, i) == e
    decreases e - i
  {
    if i < e {
      WordEndBy(s, i + 1, e);
    }
  }

  lemma {:induction false} TagRead(s: string, i: nat)
    requires At(s, i, '$') && TagEnd(s, i) > i
    ensures TagBetween(s, i, TagEnd(s, i) - 1)
  {
    var e := TagEnd(s, i) - 1;
    forall k | i < k < e
      ensures IsWordChar(s[k])
    {
    }
  }

  /** Two characters open a comment, either quote a quoted text, and a tag a dollar-quoted one; others are plain. */
  lemma {:induction false} KindExactly(s: string, i: nat)
    requires i < |s|
    ensures KindAt(s, i).LineComment? <==> i + 1 < |s| && s[i] == '-' && s[i + 1] == '-'
    ensures KindAt(s, i).BlockComment? <==> i + 1 < |s| && s[i] == '/' && s[i + 1] == '*'
    ensures KindAt(s, i).Quoted? <==> s[i] == '\'' || s[i] == '"'
    ensures KindAt(s, i).DollarQuoted? <==> exists e: nat :: TagBetween(s, i, e)
    ensures KindAt(s, i).Plain? ==> TokenEnd(s, i) == i + 1 && Rendered(s, i) == [s[i]]
  {
    if e: nat :| TagBetween(s, i, e) {
      TagEndExactly(s, i, e);
    }
    if KindAt(s, i).DollarQuoted? {
      TagRead(s, i);
    }
  }

  // ----- how tokens end

  /** The block comments open at the end of the text, when `depth` are open at `i`; 0 once the outermost closes. */
  function OpenAtEnd(s: string, i: nat, depth: nat): nat
    requires i <= |s|
    decreases |s| - i
  {
    if depth == 0 then 0
    else if i == |s| then depth
    else if i + 1 < |s| && s[i] == '/' && s[i + 1] == '*' then OpenAtEnd(s, i + 2, depth + 1)
    else if i + 1 < |s| && s[i] == '*' && s[i + 1] == '/' then OpenAtEnd(s, i + 2, depth - 1)
    else OpenAtEnd(s, i + 1, depth)
  }

  lemma {:induction false} UnwoundStep(s: string, i: nat, depth: nat)
    requires i < |s| && depth > 0
    ensures Unwound(s, i, depth) ==
            if BlockOpens(s, i) then Unwound(s, i + 2, depth + 1)
            else if BlockCloses(s, i) then Unwound(s, i + 2, depth - 1)
            else Unwound(s, i + 1, depth)
  {
    assert Unwound(s, i, depth) == Unwound(s, BlockEnd(s, i), depth - 1);
    if BlockOpens(s, i) {
      assert Unwound(s, i + 2, depth + 1) == Unwound(s, BlockEnd(s, i + 2), depth);
    }
  }

  lemma {:induction false} UnwoundExactly(s: string, i: nat, depth: nat)
    requires i <= |s| && depth > 0
    ensures var e := Unwound(s, i, depth);
      if OpenAtEnd(s, i, depth) > 0 then e == |s| else e >= i + 2 && BlockCloses(s, e - 2)
    decreases |s| - i
  {
    if i == |s| {
      UnwoundAtEnd(s, depth);
    } else {
      UnwoundStep(s, i, depth);
      if BlockOpens(s, i) {
        UnwoundExactly(s, i + 2, depth + 1);
      } else if !BlockCloses(s, i) {
        UnwoundExactly(s, i + 1, depth);
      } else if depth > 1 {
        UnwoundExactly(s, i + 2, depth - 1);
      } else {
        assert Unwound(s, i + 2, 0) == i + 2 && OpenAtEnd(s, i + 2, 0) == 0;
      }
    }
  }

  /** The text cut at `q` leaves no comment open exactly if the outermost has closed by then. */
  lemma {:induction false} ClosedBy(s: string, q: nat, i: nat, depth: nat)
    requires i <= q <= |s| && depth > 0
    ensures OpenAtEnd(s[..q], i, depth) == 0 <==> OpenAtEnd(s, i, depth) == 0 && Unwound(s, i, depth) <= q
    decreases |s| - i
  {
    UnwoundExactly(s, i, depth);
    if i < q {
      UnwoundStep(s, i, depth);
      if i + 1 < q && BlockOpens(s, i) {
        ClosedBy(s, q, i + 2, depth + 1);
      } else if i + 1 < q && BlockCloses(s, i) {
        if depth > 1 {
          ClosedBy(s, q, i + 2, depth - 1);
        }
      } else if BlockOpens(s, i) || BlockCloses(s, i) {
        UnwoundBeyond(s, i, depth);
      } else {
        ClosedBy(s, q, i + 1, depth);
      }
    }
  }

  lemma {:induction false} UnwoundBeyond(s: string, i: nat, depth: nat)
    requires i < |s| && depth > 0 && (BlockOpens(s, i) || BlockCloses(s, i))
    ensures Unwound(s, i, depth) >= i + 2
  {
    UnwoundStep(s, i, depth);
  }

  /**
   * A block comment ends where the text read so far first leaves no comment open. Where the whole text leaves one
   * open, its own or a nested one, it takes everything; any other ends with its own closer.
   */
  lemma {:induction false} BlockExactly(s: string, i: nat)
    requires i + 1 < |s| && s[i] == '/' && s[i + 1] == '*'
    ensures var e := TokenEnd(s, i);
      && Rendered(s, i) == Blank(s[i..e])
      && (forall q :: i + 2 <= q < e ==> OpenAtEnd(s[..q], i + 2, 1) > 0)
      && if OpenAtEnd(s, i + 2, 1) > 0 then e == |s| && StripFrom(s, i) == Blank(s[i..])
         else e >= i + 4 && BlockCloses(s, e - 2) && OpenAtEnd(s[..e], i + 2, 1) == 0
  {
    var e := TokenEnd(s, i);
    UnwoundExactly(s, i + 2, 1);
    assert Unwound(s, i + 2, 1) == Unwound(s, BlockEnd(s, i + 2), 0) == e;
    forall q | i + 2 <= q <= e
      ensures OpenAtEnd(s[..q], i + 2, 1) == 0 <==> OpenAtEnd(s, i + 2, 1) == 0 && e <= q
    {
      ClosedBy(s, q, i + 2, 1);
    }
    if e == |s| {
      assert s[i..|s|] == s[i..];
    }
  }

  /** A closer of an inner comment does not close the outer one. */
  lemma {:induction false} NestedExample()
    ensures TokenEnd("/* a /* b */ c", 0) == |"/* a /* b */ c"|
  {
    var s := "/* a /* b */ c";
    assert forall k :: 2 <= k < 14 ==> (BlockOpens(s, k) <==> k == 5) && (BlockCloses(s, k) <==> k == 10);
    OpenUnchanged(s, 2, 5, 1);
    assert OpenAtEnd(s, 5, 1) == OpenAtEnd(s, 7, 2);
    OpenUnchanged(s, 7, 10, 2);
    assert OpenAtEnd(s, 10, 2) == OpenAtEnd(s, 12, 1);
    OpenUnchanged(s, 12, 14, 1);
    BlockExactly(s, 0);
  }

  lemma {:induction false} OpenUnchanged(s: string, i: nat, j: nat, depth: nat)
    requires i <= j <= |s| && forall k :: i <= k < j ==> !BlockOpens(s, k) && !BlockCloses(s, k)
    ensures OpenAtEnd(s, i, depth) == OpenAtEnd(s, j, depth)
    decreases j - i
  {
    if i < j {
      assert !BlockOpens(s, i) && !BlockCloses(s, i);
      OpenUnchanged(s, i + 1, j, depth);
    }
  }

  function Count(s: string, i: nat, e: nat, c: char): nat
    requires i <= e <= |s|
    decreases e - i
  {
    if i == e then 0 else (if s[i] == c then 1 else 0) + Count(s, i + 1, e, c)
  }

  /** The text from `i` to `e` ends with a quote, none comes next, and it holds an odd number of them. */
  ghost predicate OddQuote(s: string, i: nat, e: nat, quote: char) {
    i < e <= |s| && s[e - 1] == quote && !At(s, e, quote) && Count(s, i, e, quote) % 2 == 1
  }

  /** The first end `e` with that property, or the end of the text where there is none. */
  ghost predicate FirstOddQuote(s: string, i: nat, e: nat, quote: char) {
    && (OddQuote(s, i, e, quote) || e == |s|)
    && forall j: nat :: i < j < e ==> !OddQuote(s, i, j, quote)
  }

  lemma {:induction false} QuoteEndExactly(s: string, i: nat, quote: char)
    requires i <= |s|
    ensures FirstOddQuote(s, i, QuoteEnd(s, i, quote), quote)
    decreases |s| - i
  {
    var e := QuoteEnd(s, i, quote);
    if i < |s| {
      if s[i] != quote {
        QuoteEndExactly(s, i + 1, quote);
        forall j: nat | i < j < e
          ensures !OddQuote(s, i, j, quote)
        {
          assert j > i + 1 ==> !OddQuote(s, i + 1, j, quote);
        }
      } else if At(s, i + 1, quote) {
        QuoteEndExactly(s, i + 2, quote);
        CountPair(s, i, e, quote);
        forall j: nat | i < j < e
          ensures !OddQuote(s, i, j, quote)
        {
          if j >= i + 2 {
            CountPair(s, i, j, quote);
            assert j > i + 2 ==> !OddQuote(s, i + 2, j, quote);
          }
        }
      } else {
        assert Count(s, i, i + 1, quote) == 1 + Count(s, i + 1, i + 1, quote);
      }
    }
  }

  lemma {:induction false} CountPair(s: string, i: nat, e: nat, c: char)
    requires i + 2 <= e <= |s| && s[i] == c && s[i + 1] == c
    ensures Count(s, i, e, c) == 2 + Count(s, i + 2, e, c)
  {
    assert Count(s, i, e, c) == 1 + Count(s, i + 1, e, c);
  }

  predicate TagAt(s: string, tag: string, k: nat) {
    k + |tag| <= |s| && s[k..k + |tag|] == tag
  }

  ghost predicate TagAgain(s: string, tag: string, i: nat) {
    exists k :: k >= i && TagAt(s, tag, k)
  }

  lemma {:induction false} FirstTagBy(s: string, tag: string, i: nat, k: nat)
    requires i <= k && TagAt(s, tag, k) && tag != ""
    ensures var e := EndOfFirst(s, tag, i); i + |tag| <= e <= k + |tag| && TagAt(s, tag, e - |tag|)
    decreases k - i
  {
    if !TagAt(s, tag, i) {
      FirstTagBy(s, tag, i + 1, k);
    }
  }

  lemma {:induction false} NoTag(s: string, tag: string, i: nat)
    requires i <= |s| && tag != "" && forall k :: i <= k <= |s| ==> !TagAt(s, tag, k)
    ensures EndOfFirst(s, tag, i) == |s|
    decreases |s| - i
  {
    assert !TagAt(s, tag, i);
    if i + |tag| <= |s| {
      NoTag(s, tag, i + 1);
    }
  }

  /** `e` is the end of the first occurrence of `tag` from `i` on, or of the text where there is none. */
  ghost predicate FirstTag(s: string, tag: string, i: nat, e: nat) {
    if TagAgain(s, tag, i)
    then i + |tag| <= e && TagAt(s, tag, e - |tag|) && forall k :: i <= k < e - |tag| ==> !TagAt(s, tag, k)
    else e == |s|
  }

  lemma {:induction false} FirstTagExactly(s: string, tag: string, i: nat)
    requires i <= |s| && tag != ""
    ensures FirstTag(s, tag, i, EndOfFirst(s, tag, i))
  {
    if TagAgain(s, tag, i) {
      var k :| k >= i && TagAt(s, tag, k);
      FirstTagBy(s, tag, i, k);
      forall j | i <= j < EndOfFirst(s, tag, i) - |tag|
        ensures !TagAt(s, tag, j)
      {
        if TagAt(s, tag, j) {
          FirstTagBy(s, tag, i, j);
        }
      }
    } else {
      NoTag(s, tag, i);
    }
  }

  /**
   * A quoted string or identifier ends behind the first quote that no quote follows and that makes the number of
   * quotes after the opening one odd; where there is none it takes the rest of the text, kept as it is.
   */
  lemma {:induction false} QuotedExactly(s: string, i: nat)
    requires i < |s| && (s[i] == '\'' || s[i] == '"')
    ensures var e := TokenEnd(s, i);
      FirstOddQuote(s, i + 1, e, s[i]) && Rendered(s, i) == s[i..e] && (e == |s| ==> StripFrom(s, i) == s[i..])
  {
    QuoteEndExactly(s, i + 1, s[i]);
    KeptToEnd(s, i);
  }

  /**
   * A dollar-quoted string whose tag runs from `i` to `e` ends with the first repetition of the tag, or else takes the
   * rest of the text, kept as it is.
   */
  lemma {:induction false} DollarQuotedExactly(s: string, i: nat, e: nat)
    requires TagBetween(s, i, e)
    ensures FirstTag(s, s[i..e + 1], e + 1, TokenEnd(s, i)) && Rendered(s, i) == s[i..TokenEnd(s, i)]
    ensures TokenEnd(s, i) == |s| ==> StripFrom(s, i) == s[i..]
  {
    DollarToken(s, i, e);
    FirstTagExactly(s, s[i..e + 1], e + 1);
    KeptToEnd(s, i);
  }

  lemma {:induction false} DollarToken(s: string, i: nat, e: nat)
    requires TagBetween(s, i, e)
    ensures KindAt(s, i).DollarQuoted? && TokenEnd(s, i) == EndOfFirst(s, s[i..e + 1], e + 1)
  {
    TagEndExactly(s, i, e);
  }

  /** A line comment takes all up to the next newline, and leaves as many blanks. */
  lemma {:induction false} LineExactly(s: string, i: nat)
    requires i + 1 < |s| && s[i] == '-' && s[i + 1] == '-'
    ensures var e := TokenEnd(s, i);
      && (forall k :: i <= k < e ==> s[k] != '\n' && Rendered(s, i)[k - i] == ' ')
      && (e == |s| || s[e] == '\n')
  {
    var e := TokenEnd(s, i);
    forall k | i <= k < e
      ensures s[k] != '\n' && Rendered(s, i)[k - i] == ' '
    {
      RenderedAt(s, i, k);
    }
  }

  lemma {:induction false} KeptToEnd(s: string, i: nat)
    requires i < |s| && !IsComment(s, i)
    ensures TokenEnd(s, i) == |s| ==> StripFrom(s, i) == s[i..]
  {
    assert s[i..|s|] == s[i..] && s[i..] + "" == s[i..];
  }

  // ----- texts that read alike outside comments

  /**
   * `t` repeats every token of `s` from boundary `i` on that is not a comment, and over each comment starts
   * either as `s` does or with a blank.
   */
  ghost predicate Tracks(s: string, t: string, i: nat)
    requires i <= |s|
    decreases |s| - i
  {
    && |t| == |s|
    && (i < |s| ==>
          var e := TokenEnd(s, i);
          && (if IsComment(s, i) then t[i] == s[i] || t[i] == ' ' else t[i..e] == s[i..e])
          && Tracks(s, t, e))
  }

  /** At a boundary the two texts agree, unless a comment starts there and has been blanked. */
  lemma {:induction false} TracksHere(s: string, t: string, i: nat)
    requires i < |s| && Tracks(s, t, i)
    ensures t[i] == s[i] || (t[i] == ' ' && IsComment(s, i) && (s[i] == '-' || s[i] == '/'))
  {
    if !IsComment(s, i) {
      assert t[i..TokenEnd(s, i)][0] == s[i..TokenEnd(s, i)][0];
    }
  }

  lemma {:induction false} SlicesAgree(s: string, t: string, i: nat, e: nat, k: nat)
    requires |t| == |s| && i <= k < e <= |s| && t[i..e] == s[i..e]
    ensures t[k] == s[k]
  {
    assert t[k] == t[i..e][k - i] && s[k] == s[i..e][k - i];
  }

  lemma {:induction false} SubslicesAgree(s: string, t: string, i: nat, e: nat, a: nat, b: nat)
    requires |t| == |s| && i <= a <= b <= e <= |s| && t[i..e] == s[i..e]
    ensures t[a..b] == s[a..b]
  {
    forall k | a <= k < b
      ensures t[k] == s[k]
    {
      SlicesAgree(s, t, i, e, k);
    }
  }

  lemma {:induction false} QuoteEndAgrees(s: string, t: string, i: nat, quote: char, e: nat)
    requires |t| == |s| && i <= e <= |s| && e == QuoteEnd(s, i, quote) && t[i..e] == s[i..e]
    requires e < |s| ==> (At(t, e, quote) ==> At(s, e, quote))
    ensures QuoteEnd(t, i, quote) == e
    decreases |s| - i
  {
    if i < |s| {
      SlicesAgree(s, t, i, e, i);
      if s[i] != quote {
        SubslicesAgree(s, t, i, e, i + 1, e);
        QuoteEndAgrees(s, t, i + 1, quote, e);
      } else if At(s, i + 1, quote) {
        SlicesAgree(s, t, i, e, i + 1);
        SubslicesAgree(s, t, i, e, i + 2, e);
        QuoteEndAgrees(s, t, i + 2, quote, e);
      }
    }
  }

  lemma {:induction false} EndOfFirstAgrees(s: string, t: string, tag: string, i: nat, e: nat)
    requires |t| == |s| && i <= e <= |s| && tag != "" && e == EndOfFirst(s, tag, i) && t[i..e] == s[i..e]
    ensures EndOfFirst(t, tag, i) == e
    decreases |s| - i
  {
    if i + |tag| <= |s| {
      EndOfFirstAtLeast(s, tag, i);
      SubslicesAgree(s, t, i, e, i, i + |tag|);
      if s[i..i + |tag|] != tag {
        SubslicesAgree(s, t, i, e, i + 1, e);
        EndOfFirstAgrees(s, t, tag, i + 1, e);
      }
    }
  }

  lemma {:induction false} EndOfFirstAtLeast(s: string, tag: string, i: nat)
    requires i + |tag| <= |s|
    ensures EndOfFirst(s, tag, i) >= i + |tag|
    decreases |s| - i
  {
    if s[i..i + |tag|] != tag && i < |s| && i + 1 + |tag| <= |s| {
      EndOfFirstAtLeast(s, tag, i + 1);
    }
  }

  /** A run of word characters at a boundary is a run of plain tokens, so it reads the same in both texts. */
  lemma {:induction false} WordEndAgrees(s: string, t: string, i: nat)
    requires i <= |s| && Tracks(s, t, i)
    ensures WordEnd(t, i) == WordEnd(s, i)
    ensures At(t, WordEnd(s, i), '$') == At(s, WordEnd(s, i), '$')
    decreases |s| - i
  {
    if i < |s| {
      TracksHere(s, t, i);
      if IsWordChar(s[i]) {
        assert TokenEnd(s, i) == i + 1;
        WordEndAgrees(s, t, i + 1);
      }
    }
  }

  lemma {:induction false} DollarAgrees(s: string, t: string, i: nat)
    requires At(s, i, '$') && Tracks(s, t, i)
    ensures t[i] == '$'
    ensures TagEnd(s, i) == i ==> TagEnd(t, i) == i
    ensures TagEnd(s, i) > i ==> TagEnd(t, i) == TagEnd(s, i) && TokenEnd(t, i) == TokenEnd(s, i)
  {
    TracksHere(s, t, i);
    var e := TagEnd(s, i);
    if e == i {
      assert TokenEnd(s, i) == i + 1;
      if i + 1 < |s| {
        TracksHere(s, t, i + 1);
        if IsLetterOrUnderscore(s[i + 1]) {
          assert TokenEnd(s, i + 1) == i + 2;
          WordEndAgrees(s, t, i + 2);
        }
      }
    } else {
      var end := TokenEnd(s, i);
      assert t[i..end] == s[i..end];
      TagAgrees(s, t, i, end);
      SubslicesAgree(s, t, i, end, i, e);
      SubslicesAgree(s, t, i, end, e, end);
      EndOfFirstAgrees(s, t, s[i..e], e, end);
    }
  }

  lemma {:induction false} TagAgrees(s: string, t: string, i: nat, end: nat)
    requires At(s, i, '$') && |t| == |s| && i < TagEnd(s, i) <= end <= |s| && t[i..end] == s[i..end]
    ensures At(t, i, '$') && TagEnd(t, i) == TagEnd(s, i)
  {
    SlicesAgree(s, t, i, end, i);
    SlicesAgree(s, t, i, end, i + 1);
    if !At(s, i + 1, '$') {
      WordRunAgrees(s, t, i + 2, TagEnd(s, i) - 1, i, end);
    }
  }

  lemma {:induction false} WordRunAgrees(s: string, t: string, p: nat, e: nat, i: nat, end: nat)
    requires |t| == |s| && i <= p <= e < end <= |s| && t[i..end] == s[i..end]
    requires e == WordEnd(s, p)
    ensures WordEnd(t, p) == e && t[e] == s[e]
    decreases e - p
  {
    SlicesAgree(s, t, i, end, p);
    SlicesAgree(s, t, i, end, e);
    if p < e {
      WordRunAgrees(s, t, p + 1, e, i, end);
    }
  }

  /** Every token of `s` outside comments is a token of the same kind and extent of `t`. */
  lemma {:induction false} SameToken(s: string, t: string, i: nat)
    requires i < |s| && Tracks(s, t, i) && !IsComment(s, i)
    ensures KindAt(t, i) == KindAt(s, i) && TokenEnd(t, i) == TokenEnd(s, i)
  {
    var e := TokenEnd(s, i);
    TracksHere(s, t, i);
    if e < |s| {
      TracksHere(s, t, e);
    }
    match KindAt(s, i) {
      case Quoted =>
        SubslicesAgree(s, t, i, e, i + 1, e);
        QuoteEndAgrees(s, t, i + 1, s[i], e);
      case DollarQuoted =>
        DollarAgrees(s, t, i);
      case Plain =>
        if s[i] == '$' {
          DollarAgrees(s, t, i);
        }
      case _ =>
    }
  }

  // ----- stripping twice

  lemma {:induction false} StripTracks(s: string, i: nat)
    requires i <= |s| && StripFrom(s, i) == Strip(s)[i..]
    ensures Tracks(s, Strip(s), i)
    decreases |s| - i
  {
    if i < |s| {
      var t, e := Strip(s), TokenEnd(s, i);
      assert t[i..e] == StripFrom(s, i)[..e - i] == Rendered(s, i);
      assert t[e..] == StripFrom(s, i)[e - i..] == StripFrom(s, e);
      assert t[i] == t[i..e][0];
      StripTracks(s, e);
    }
  }

  /** Blanks and newlines are plain tokens of one character. */
  lemma {:induction false} BlanksStay(t: string, i: nat, e: nat)
    requires i <= e <= |t| && forall k :: i <= k < e ==> t[k] == ' ' || t[k] == '\n'
    requires StripFrom(t, e) == t[e..]
    ensures StripFrom(t, i) == t[i..]
    decreases e - i
  {
    if i < e {
      BlanksStay(t, i + 1, e);
      PlainBlank(t, i);
    }
  }

  lemma {:induction false} PlainBlank(t: string, i: nat)
    requires i < |t| && (t[i] == ' ' || t[i] == '\n') && StripFrom(t, i + 1) == t[i + 1..]
    ensures StripFrom(t, i) == t[i..]
  {
    BlankIsPlain(t, i);
    assert StripFrom(t, i) == t[i..i + 1] + StripFrom(t, i + 1);
    SliceSplit(t, i);
  }

  lemma {:induction false} SliceSplit(t: string, i: nat)
    requires i < |t|
    ensures t[i..i + 1] + t[i + 1..] == t[i..]
  {
  }

  lemma {:induction false} BlankIsPlain(t: string, i: nat)
    requires i < |t| && (t[i] == ' ' || t[i] == '\n')
    ensures KindAt(t, i) == Plain && TokenEnd(t, i) == i + 1 && Rendered(t, i) == t[i..i + 1]
  {
  }

  lemma {:induction false} StrippedStays(s: string, t: string, i: nat)
    requires i <= |s| && Tracks(s, t, i) && t[i..] == StripFrom(s, i)
    ensures StripFrom(t, i) == t[i..]
    decreases |s| - i
  {
    if i < |s| {
      var e := TokenEnd(s, i);
      assert t[i..e] == t[i..][..e - i] == Rendered(s, i);
      assert t[e..] == t[i..][e - i..] == StripFrom(s, e);
      StrippedStays(s, t, e);
      if IsComment(s, i) {
        forall k | i <= k < e
          ensures t[k] == ' ' || t[k] == '\n'
        {
          assert t[k] == t[i..e][k - i];
        }
        BlanksStay(t, i, e);
      } else {
        SameToken(s, t, i);
        assert t[i..] == t[i..e] + t[e..];
      }
    }
  }

  /** Blanking a comment never creates a new comment, quote or dollar tag: stripping is idempotent. */
  lemma {:induction false} StripIdempotent(s: string)
    ensures Strip(Strip(s)) == Strip(s)
  {
    assert Strip(s)[0..] == Strip(s);
    StripTracks(s, 0);
    StrippedStays(s, Strip(s), 0);
  }

  // ----- what comments say does not matter

  /** `t` differs from `s` only inside comments: same extents, same kinds, same line breaks. */
  ghost predicate SameOutsideComments(s: string, t: string, i: nat)
    requires i <= |s|
    decreases |s| - i
  {
    && |t| == |s|
    && (i < |s| ==>
          var e := TokenEnd(s, i);
          && (if IsComment(s, i)
              then KindAt(t, i) == KindAt(s, i) && TokenEnd(t, i) == e && Blank(t[i..e]) == Blank(s[i..e])
              else t[i..e] == s[i..e])
          && SameOutsideComments(s, t, e))
  }

  lemma {:induction false} SameTracks(s: string, t: string, i: nat)
    requires i <= |s| && SameOutsideComments(s, t, i)
    ensures Tracks(s, t, i)
    decreases |s| - i
  {
    if i < |s| {
      SameTracks(s, t, TokenEnd(s, i));
    }
  }

  /** Two texts that differ only inside comments are stripped to the same text. */
  lemma {:induction false} CommentsDoNotMatter(s: string, t: string, i: nat)
    requires i <= |s| && SameOutsideComments(s, t, i)
    ensures StripFrom(t, i) == StripFrom(s, i)
    decreases |s| - i
  {
    if i < |s| {
      SameTracks(s, t, i);
      CommentsDoNotMatter(s, t, TokenEnd(s, i));
      if !IsComment(s, i) {
        SameToken(s, t, i);
      }
    }
  }

  /** Token boundaries: the positions the scan stops at. */
  ghost predicate Boundary(s: string, i: nat, k: nat)
    requires i <= |s|
    decreases |s| - i
  {
    i == k || (i < |s| && Boundary(s, TokenEnd(s, i), k))
  }

  lemma {:induction false} BoundaryBefore(s: string, i: nat, k: nat)
    requires i <= |s| && Boundary(s, i, k)
    ensures i <= k
    decreases |s| - i
  {
    if i != k {
      BoundaryBefore(s, TokenEnd(s, i), k);
    }
  }

  lemma {:induction false} LineEndAgrees(s: string, t: string, i: nat, e: nat)
    requires |t| == |s| && i <= e <= |s| && e == LineEnd(s, i) && t[i..e] == s[i..e]
    requires e < |s| ==> t[e] == '\n'
    ensures LineEnd(t, i) == e
    decreases |s| - i
  {
    if i < e {
      SlicesAgree(s, t, i, e, i);
      SubslicesAgree(s, t, i, e, i + 1, e);
      LineEndAgrees(s, t, i + 1, e);
    }
  }

  lemma {:induction false} BlockEndAgrees(s: string, t: string, i: nat, e: nat)
    requires |t| == |s| && i <= e <= |s| && e == BlockEnd(s, i) && t[i..e] == s[i..e]
    ensures BlockEnd(t, i) == e
    decreases |s| - i
  {
    if i < |s| {
      SlicesAgree(s, t, i, e, i);
      if i + 1 < e {
        SlicesAgree(s, t, i, e, i + 1);
      }
      if BlockOpens(s, i) {
        var m := BlockEnd(s, i + 2);
        SubslicesAgree(s, t, i, e, i + 2, m);
        SubslicesAgree(s, t, i, e, m, e);
        BlockEndAgrees(s, t, i + 2, m);
        BlockEndAgrees(s, t, m, e);
      } else if !BlockCloses(s, i) {
        SubslicesAgree(s, t, i, e, i + 1, e);
        BlockEndAgrees(s, t, i + 1, e);
      }
    }
  }

  lemma {:induction false} CommentAgrees(s: string, t: string, i: nat)
    requires i < |s| == |t| && IsComment(s, i)
    requires var e := TokenEnd(s, i); t[i..e] == s[i..e] && (e < |s| ==> t[e] == s[e])
    ensures KindAt(t, i) == KindAt(s, i) && TokenEnd(t, i) == TokenEnd(s, i)
  {
    var e := TokenEnd(s, i);
    SlicesAgree(s, t, i, e, i);
    SlicesAgree(s, t, i, e, i + 1);
    if LineOpens(s, i) {
      SubslicesAgree(s, t, i, e, i + 1, e);
      LineEndAgrees(s, t, i + 1, e);
    } else {
      SubslicesAgree(s, t, i, e, i + 2, e);
      BlockEndAgrees(s, t, i + 2, e);
    }
  }

  lemma {:induction false} SameSuffix(s: string, t: string, i: nat)
    requires i <= |s| == |t| && t[i..] == s[i..]
    ensures SameOutsideComments(s, t, i)
    decreases |s| - i
  {
    if i < |s| {
      var e := TokenEnd(s, i);
      assert t[i..|s|] == s[i..|s|];
      SubslicesAgree(s, t, i, |s|, i, e);
      SubslicesAgree(s, t, i, |s|, e, |s|);
      assert t[e..|s|] == t[e..] && s[e..|s|] == s[e..];
      SameSuffix(s, t, e);
      if IsComment(s, i) {
        if e < |s| {
          SlicesAgree(s, t, i, |s|, e);
        }
        CommentAgrees(s, t, i);
      }
    }
  }

  /** Rewriting one comment, with the same kind, extent and line breaks, is a change inside comments only. */
  lemma {:induction false} RewriteComment(s: string, t: string, k: nat, i: nat)
    requires i <= k < |s| == |t| && Boundary(s, i, k) && IsComment(s, k)
    requires var e := TokenEnd(s, k);
      && t[..k] == s[..k] && t[e..] == s[e..]
      && KindAt(t, k) == KindAt(s, k) && TokenEnd(t, k) == e
      && Blank(t[k..e]) == Blank(s[k..e])
    ensures SameOutsideComments(s, t, i)
    decreases k - i
  {
    var e := TokenEnd(s, i);
    if i == k {
      SameSuffix(s, t, e);
    } else {
      BoundaryBefore(s, e, k);
      assert t[0..k] == t[..k] == s[..k] == s[0..k];
      SubslicesAgree(s, t, 0, k, i, e);
      if e < k {
        SlicesAgree(s, t, 0, k, e);
      }
      RewriteComment(s, t, k, e);
      if IsComment(s, i) {
        CommentAgrees(s, t, i);
      }
    }
  }

  /** For instance: any other text without newlines may follow the `--` of a line comment. */
  lemma {:induction false} RewriteLineComment(s: string, k: nat, body: string)
    requires k < |s| && Boundary(s, 0, k) && LineOpens(s, k)
    requires k + 2 + |body| == TokenEnd(s, k) && '\n' !in body
    ensures Strip(s[..k + 2] + body + s[TokenEnd(s, k)..]) == Strip(s)
  {
    var e := TokenEnd(s, k);
    var t := s[..k + 2] + body + s[e..];
    assert LineOpens(t, k);
    forall j | k <= j < e
      ensures t[j] != '\n' && s[j] != '\n'
    {
      if j >= k + 2 {
        assert t[j] == body[j - (k + 2)];
      }
    }
    LineEndAt(t, k + 1, e);
    assert t[..k] == s[..k];
    RewriteComment(s, t, k, 0);
    CommentsDoNotMatter(s, t, 0);
  }

  lemma {:induction false} LineEndAt(t: string, i: nat, e: nat)
    requires i <= e <= |t| && (forall j :: i <= j < e ==> t[j] != '\n') && (e < |t| ==> t[e] == '\n')
    ensures LineEnd(t, i) == e
    decreases e - i
  {
    if i < e {
      LineEndAt(t, i + 1, e);
    }
  }
}
