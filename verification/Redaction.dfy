/** Secret redaction: markers spliced in from the right, against an assembly from the left. */
module Redaction {

  /** A detected secret's extent, and the marker that is to replace it. */
  datatype Span = Span(start: nat, end: nat, marker: string)

  function Marker(kind: string): string {
    "[REDACTED:" + kind + "]"
  }

  /** A finding of the detector. */
  datatype Finding = Finding(start: nat, end: nat, kind: string)

  function Spans(findings: seq<Finding>): seq<Span> {
    seq(|findings|, i requires 0 <= i < |findings| =>
      Span(findings[i].start, findings[i].end, Marker(findings[i].kind)))
  }

  /** `s.slice(a)` and `s.slice(0, b)` accept any bound. */
  function From(s: string, a: nat): string {
    if a <= |s| then s[a..] else ""
  }

  function UpTo(s: string, b: nat): string {
    if b <= |s| then s[..b] else s
  }

  function Cut(s: string, f: Span): string {
    UpTo(s, f.start) + f.marker + From(s, f.end)
  }

  // ----- the stable sort by descending start

  function Insert(f: Span, sorted: seq<Span>): seq<Span> {
    if sorted == [] || f.start >= sorted[0].start then [f] + sorted
    else [sorted[0]] + Insert(f, sorted[1..])
  }

  function SortDescending(fs: seq<Span>): seq<Span> {
    if fs == [] then [] else Insert(fs[0], SortDescending(fs[1..]))
  }

  ghost predicate Descending(fs: seq<Span>) {
    forall i, j :: 0 <= i < j < |fs| ==> fs[i].start >= fs[j].start
  }

  lemma {:induction false} DescendingCons(f: Span, fs: seq<Span>)
    requires Descending(fs) && forall g :: g in fs ==> g.start <= f.start
    ensures Descending([f] + fs)
  {
    assert forall i :: 0 <= i < |fs| ==> fs[i] in fs;
  }

  lemma {:induction false} InsertSorted(f: Span, sorted: seq<Span>)
    requires Descending(sorted)
    ensures Descending(Insert(f, sorted))
  {
    if sorted != [] {
      var first, rest := sorted[0], sorted[1..];
      assert sorted == [first] + rest && forall g :: g in rest ==> g.start <= first.start;
      if f.start < first.start {
        InsertSorted(f, rest);
        InsertElements(f, rest);
        DescendingCons(first, Insert(f, rest));
        assert Insert(f, sorted) == [first] + Insert(f, rest);
      } else {
        DescendingCons(f, sorted);
      }
    }
  }

  lemma {:induction false} InsertElements(f: Span, sorted: seq<Span>)
    ensures forall g :: g in Insert(f, sorted) <==> g == f || g in sorted
  {
    if sorted != [] && f.start < sorted[0].start {
      InsertElements(f, sorted[1..]);
      assert sorted == [sorted[0]] + sorted[1..];
    }
  }

  lemma {:induction false} InsertMultiset(f: Span, sorted: seq<Span>)
    ensures multiset(Insert(f, sorted)) == multiset(sorted) + multiset{f}
  {
    if sorted != [] && f.start < sorted[0].start {
      InsertMultiset(f, sorted[1..]);
      assert sorted == [sorted[0]] + sorted[1..];
    }
  }

  lemma {:induction false} SortSorted(fs: seq<Span>)
    ensures Descending(SortDescending(fs)) && multiset(SortDescending(fs)) == multiset(fs)
  {
    if fs != [] {
      SortSorted(fs[1..]);
      InsertSorted(fs[0], SortDescending(fs[1..]));
      InsertMultiset(fs[0], SortDescending(fs[1..]));
      assert fs == [fs[0]] + fs[1..];
    }
  }

  function StartingAt(fs: seq<Span>, start: nat): seq<Span> {
    if fs == [] then []
    else (if fs[0].start == start then [fs[0]] else []) + StartingAt(fs[1..], start)
  }

  /** Spans that start at the same place stay in the order in which they were found. */
  lemma {:induction false} SortStable(fs: seq<Span>, start: nat)
    ensures StartingAt(SortDescending(fs), start) == StartingAt(fs, start)
  {
    if fs != [] {
      SortStable(fs[1..], start);
      SortSorted(fs[1..]);
      InsertStable(fs[0], SortDescending(fs[1..]), start);
    }
  }

  lemma {:induction false} InsertStable(f: Span, sorted: seq<Span>, start: nat)
    requires Descending(sorted)
    ensures StartingAt(Insert(f, sorted), start) == StartingAt([f], start) + StartingAt(sorted, start)
  {
    assert [f][1..] == [];
    if sorted == [] || f.start >= sorted[0].start {
      assert ([f] + sorted)[1..] == sorted;
    } else {
      var rest := sorted[1..];
      InsertStable(f, rest, start);
      assert ([sorted[0]] + Insert(f, rest))[1..] == Insert(f, rest);
    }
  }

  // ----- the splicing loop

  function Spliced(text: string, fs: seq<Span>): string
    decreases |fs|
  {
    if fs == [] then text else Spliced(Cut(text, fs[0]), fs[1..])
  }

  method RedactSecrets(text: string, findings: seq<Finding>) returns (out: string)
    ensures out == Spliced(text, SortDescending(Spans(findings)))
  {
    if |findings| == 0 { return text; }
    var sorted := SortDescending(Spans(findings));
    out := text;
    for i := 0 to |sorted|
      invariant Spliced(out, sorted[i..]) == Spliced(text, sorted)
    {
      assert sorted[i..][1..] == sorted[i + 1..];
      out := UpTo(out, sorted[i].start) + sorted[i].marker + From(out, sorted[i].end);
    }
  }

  // ----- the assembly from left to right

  function Reversed(fs: seq<Span>): (r: seq<Span>)
    ensures |r| == |fs| && forall i :: 0 <= i < |fs| ==> r[i] == fs[|fs| - 1 - i]
  {
    if fs == [] then [] else Reversed(fs[1..]) + [fs[0]]
  }

  function Max(a: nat, b: nat): nat {
    if a >= b then a else b
  }

  /** From position `pos` on: the text between the spans, and the markers, in order; no text is read twice. */
  function Assembled(text: string, fs: seq<Span>, pos: nat): string
    requires pos <= |text| && forall f :: f in fs ==> f.end <= |text|
  {
    if fs == [] then text[pos..]
    else
      assert fs[0] in fs;
      (if pos <= fs[0].start && fs[0].start <= |text| then text[pos..fs[0].start] else "") + fs[0].marker
      + Assembled(text, fs[1..], Max(pos, fs[0].end))
  }

  /** Non-empty spans inside the text, sorted by where they start. */
  ghost predicate Layout(fs: seq<Span>, n: nat) {
    && (forall f :: f in fs ==> f.start < f.end <= n)
    && (forall i, j :: 0 <= i < j < |fs| ==> fs[i].start <= fs[j].start)
  }

  /** In a layout: no span begins before the previous one has ended. */
  ghost predicate Disjoint(fs: seq<Span>) {
    forall i :: 0 <= i < |fs| - 1 ==> fs[i].end <= fs[i + 1].start
  }

  /** Later spans first: the loop's order, for spans listed from left to right. */
  function SplicedFromRight(text: string, fs: seq<Span>): string {
    if fs == [] then text else Cut(SplicedFromRight(text, fs[1..]), fs[0])
  }

  lemma {:induction false} SplicedSnoc(text: string, fs: seq<Span>, f: Span)
    ensures Spliced(text, fs + [f]) == Cut(Spliced(text, fs), f)
    decreases |fs|
  {
    if fs == [] {
      assert fs + [f] == [f] && [f][1..] == [];
      assert Spliced(text, [f]) == Spliced(Cut(text, f), [f][1..]);
    } else {
      assert (fs + [f])[1..] == fs[1..] + [f];
      SplicedSnoc(Cut(text, fs[0]), fs[1..], f);
    }
  }

  lemma {:induction false} SplicedReversed(text: string, fs: seq<Span>)
    ensures Spliced(text, Reversed(fs)) == SplicedFromRight(text, fs)
  {
    if fs != [] {
      SplicedSnoc(text, Reversed(fs[1..]), fs[0]);
      SplicedReversed(text, fs[1..]);
    }
  }

  lemma {:induction false} LayoutTail(fs: seq<Span>, n: nat)
    requires fs != [] && Layout(fs, n)
    ensures Layout(fs[1..], n) && fs[0] in fs
    ensures Disjoint(fs) <==> Disjoint(fs[1..]) && (|fs| > 1 ==> fs[0].end <= fs[1].start)
  {
    var rest := fs[1..];
    assert forall f :: f in rest ==> f in fs;
    if Disjoint(fs) {
      forall i | 0 <= i < |rest| - 1
        ensures rest[i].end <= rest[i + 1].start
      {
        assert fs[i + 1].end <= fs[i + 1 + 1].start;
      }
      assert |fs| > 1 ==> fs[0].end <= fs[0 + 1].start;
    }
    if Disjoint(rest) && (|fs| > 1 ==> fs[0].end <= fs[1].start) {
      forall i | 0 <= i < |fs| - 1
        ensures fs[i].end <= fs[i + 1].start
      {
        if i > 0 {
          assert rest[i - 1].end <= rest[i - 1 + 1].start;
        }
      }
    }
  }

  lemma {:induction false} CutAfter(text: string, rest: string, f: Span)
    requires f.start <= f.end <= |text|
    ensures Cut(text[..f.end] + rest, f) == text[..f.start] + f.marker + rest
  {
    var t := text[..f.end] + rest;
    assert t[..f.start] == text[..f.start] && t[f.end..] == rest;
  }

  lemma {:induction false} SpliceAssembles(text: string, fs: seq<Span>, pos: nat)
    requires Layout(fs, |text|) && Disjoint(fs) && pos <= |text| && (fs != [] ==> pos <= fs[0].start)
    ensures SplicedFromRight(text, fs) == text[..pos] + Assembled(text, fs, pos)
    decreases |fs|
  {
    if fs == [] {
      assert text == text[..pos] + text[pos..];
    } else {
      var f := fs[0];
      LayoutTail(fs, |text|);
      SpliceAssembles(text, fs[1..], f.end);
      var rest := Assembled(text, fs[1..], f.end);
      CutAfter(text, rest, f);
      Regroup(text, pos, f.start, f.marker, rest);
    }
  }

  lemma {:induction false} Regroup(text: string, pos: nat, start: nat, marker: string, rest: string)
    requires pos <= start <= |text|
    ensures text[..start] + marker + rest == text[..pos] + (text[pos..start] + marker + rest)
  {
    assert text[..start] == text[..pos] + text[pos..start];
  }

  /** The output has the length it should: the spans go, the markers come. */
  function SpanTotal(fs: seq<Span>): nat
    requires forall f :: f in fs ==> f.start <= f.end
  {
    if fs == [] then 0
    else
      assert fs[0] in fs;
      fs[0].end - fs[0].start + SpanTotal(fs[1..])
  }

  function MarkerTotal(fs: seq<Span>): nat {
    if fs == [] then 0 else |fs[0].marker| + MarkerTotal(fs[1..])
  }

  lemma {:induction false} AssembledLength(text: string, fs: seq<Span>, pos: nat)
    requires Layout(fs, |text|) && Disjoint(fs) && pos <= |text| && (fs != [] ==> pos <= fs[0].start)
    ensures |Assembled(text, fs, pos)| + SpanTotal(fs) == |text| - pos + MarkerTotal(fs)
    decreases |fs|
  {
    if fs != [] {
      LayoutTail(fs, |text|);
      AssembledLength(text, fs[1..], fs[0].end);
    }
  }

  // ----- exactly when splicing is right

  /** As the loop's markers are: `[REDACTED:kind]` is never empty. */
  ghost predicate Marked(fs: seq<Span>) {
    forall f :: f in fs ==> f.marker != ""
  }

  lemma {:induction false} CutLength(s: string, f: Span)
    ensures |Cut(s, f)| == (if f.start <= |s| then f.start else |s|) + |f.marker|
                           + if f.end <= |s| then |s| - f.end else 0
  {
  }

  lemma {:induction false} FirstLength(text: string, fs: seq<Span>, pos: nat)
    requires fs != [] && Layout(fs, |text|) && pos <= |text|
    ensures fs[0] in fs && forall g :: g in fs[1..] ==> g in fs
    ensures |Assembled(text, fs, pos)| == (if pos <= fs[0].start then fs[0].start - pos else 0) + |fs[0].marker|
                                          + |Assembled(text, fs[1..], Max(pos, fs[0].end))|
  {
  }

  /** The splice is never longer than the assembly, and shorter as soon as two spans overlap: it has cut too much. */
  lemma {:induction false} OverlapCutsTooMuch(text: string, fs: seq<Span>, pos: nat)
    requires Layout(fs, |text|) && Marked(fs) && pos <= |text|
    ensures |SplicedFromRight(text, fs)| <= pos + |Assembled(text, fs, pos)|
    ensures !Disjoint(fs) || (fs != [] && pos > fs[0].start)
            ==> |SplicedFromRight(text, fs)| < pos + |Assembled(text, fs, pos)|
    ensures fs != [] ==> |Assembled(text, fs, pos)| > 0
    decreases |fs|
  {
    if fs != [] {
      LayoutTail(fs, |text|);
      FirstLength(text, fs, pos);
      CutLength(SplicedFromRight(text, fs[1..]), fs[0]);
      OverlapCutsTooMuch(text, fs[1..], Max(pos, fs[0].end));
    }
  }

  /** Splicing from the right is the assembly if and only if the spans are disjoint. */
  lemma {:induction false} SpliceRightExactly(text: string, fs: seq<Span>)
    requires Layout(fs, |text|) && Marked(fs)
    ensures SplicedFromRight(text, fs) == Assembled(text, fs, 0) <==> Disjoint(fs)
  {
    if Disjoint(fs) {
      SpliceAssembles(text, fs, 0);
    } else {
      OverlapCutsTooMuch(text, fs, 0);
    }
  }

  ghost predicate ApartFrom(f: Span, g: Span) {
    f.end <= g.start || g.end <= f.start
  }

  ghost predicate Apart(fs: seq<Span>) {
    forall i, j :: 0 <= i < j < |fs| ==> ApartFrom(fs[i], fs[j])
  }

  ghost predicate ApartFromAll(f: Span, fs: seq<Span>) {
    forall g :: g in fs ==> ApartFrom(f, g)
  }

  lemma {:induction false} ApartCons(f: Span, fs: seq<Span>)
    ensures Apart([f] + fs) <==> Apart(fs) && ApartFromAll(f, fs)
    ensures forall g :: ApartFromAll(g, [f] + fs) <==> ApartFrom(g, f) && ApartFromAll(g, fs)
  {
    var all := [f] + fs;
    if Apart(all) {
      forall i, j | 0 <= i < j < |fs|
        ensures ApartFrom(fs[i], fs[j])
      {
        assert ApartFrom(all[i + 1], all[j + 1]);
      }
      forall g | g in fs
        ensures ApartFrom(f, g)
      {
        var k :| 0 <= k < |fs| && fs[k] == g;
        assert ApartFrom(all[0], all[k + 1]);
      }
    }
    assert forall g :: g in all <==> g == f || g in fs;
  }

  lemma {:induction false} InsertApart(f: Span, sorted: seq<Span>)
    ensures Apart(Insert(f, sorted)) <==> Apart([f] + sorted)
  {
    if sorted != [] && f.start < sorted[0].start {
      var first, rest := sorted[0], sorted[1..];
      assert sorted == [first] + rest && Insert(f, sorted) == [first] + Insert(f, rest);
      InsertApart(f, rest);
      InsertElements(f, rest);
      assert ApartFromAll(first, Insert(f, rest)) <==> ApartFrom(first, f) && ApartFromAll(first, rest);
      ApartCons(first, Insert(f, rest));
      ApartCons(f, rest);
      ApartCons(first, rest);
      ApartCons(f, sorted);
    } else {
      assert Insert(f, sorted) == [f] + sorted;
    }
  }

  /** Sorting neither parts nor joins spans. */
  lemma {:induction false} SortApart(fs: seq<Span>)
    ensures Apart(SortDescending(fs)) <==> Apart(fs)
    ensures forall g :: g in SortDescending(fs) <==> g in fs
  {
    if fs != [] {
      var sorted := SortDescending(fs[1..]);
      SortApart(fs[1..]);
      InsertApart(fs[0], sorted);
      InsertElements(fs[0], sorted);
      ApartCons(fs[0], sorted);
      ApartCons(fs[0], fs[1..]);
      assert fs == [fs[0]] + fs[1..];
    }
  }

  lemma {:induction false} ReversedTwice(fs: seq<Span>)
    ensures Reversed(Reversed(fs)) == fs
  {
  }

  lemma {:induction false} ReversedMultiset(fs: seq<Span>)
    ensures multiset(Reversed(fs)) == multiset(fs)
  {
    if fs != [] {
      ReversedMultiset(fs[1..]);
      assert fs == [fs[0]] + fs[1..];
    }
  }

  /** Findings in any order that do not overlap are redacted to the assembly, with the length it should have. */
  lemma {:induction false} RedactsDisjoint(text: string, findings: seq<Span>, fs: seq<Span>)
    requires (forall f :: f in findings ==> f.start < f.end <= |text|) && Apart(findings)
    requires fs == Reversed(SortDescending(findings))
    ensures multiset(fs) == multiset(findings) && Layout(fs, |text|) && Disjoint(fs)
    ensures Spliced(text, SortDescending(findings)) == Assembled(text, fs, 0)
    ensures |Spliced(text, SortDescending(findings))| + SpanTotal(fs) == |text| + MarkerTotal(fs)
  {
    var d := SortDescending(findings);
    SortSorted(findings);
    ReversedMultiset(d);
    LeftToRight(findings, d, fs, |text|);
    SplicedAsListed(text, d);
    SpliceAssembles(text, fs, 0);
    AssembledLength(text, fs, 0);
  }

  /** Findings in any order, with the markers the code writes: redaction is right if and only if they do not overlap. */
  lemma {:induction false} RedactsExactly(text: string, findings: seq<Span>, fs: seq<Span>)
    requires (forall f :: f in findings ==> f.start < f.end <= |text|) && Marked(findings)
    requires fs == Reversed(SortDescending(findings))
    ensures Layout(fs, |text|)
    ensures Spliced(text, SortDescending(findings)) == Assembled(text, fs, 0) <==> Apart(findings)
  {
    var d := SortDescending(findings);
    LeftToRight(findings, d, fs, |text|);
    SplicedAsListed(text, d);
    SpliceRightExactly(text, fs);
  }

  lemma {:induction false} SplicedAsListed(text: string, d: seq<Span>)
    ensures Spliced(text, d) == SplicedFromRight(text, Reversed(d))
  {
    ReversedTwice(d);
    SplicedReversed(text, Reversed(d));
  }

  /** Listed from left to right, the findings form a layout, disjoint exactly when no two of them overlap. */
  lemma {:induction false} LeftToRight(findings: seq<Span>, d: seq<Span>, fs: seq<Span>, n: nat)
    requires d == SortDescending(findings) && fs == Reversed(d) && forall f :: f in findings ==> f.start < f.end <= n
    ensures Layout(fs, n) && (Disjoint(fs) <==> Apart(findings)) && forall f :: f in fs ==> f in findings
  {
    SortSorted(findings);
    SortApart(findings);
    LayoutReversed(d, fs, n);
    if Apart(d) {
      ApartIsDisjoint(d, fs);
    }
    if Disjoint(fs) {
      DisjointIsApart(d, fs, n);
    }
  }

  lemma {:induction false} LayoutReversed(d: seq<Span>, fs: seq<Span>, n: nat)
    requires Descending(d) && fs == Reversed(d) && forall f :: f in d ==> f.start < f.end <= n
    ensures Layout(fs, n) && forall f :: f in fs ==> f in d
  {
    forall i | 0 <= i < |fs|
      ensures fs[i] in d
    {
      assert fs[i] == d[|d| - 1 - i];
    }
    forall i, j | 0 <= i < j < |fs|
      ensures fs[i].start <= fs[j].start
    {
      assert d[|d| - 1 - j].start >= d[|d| - 1 - i].start;
    }
  }

  lemma {:induction false} ApartIsDisjoint(d: seq<Span>, fs: seq<Span>)
    requires Descending(d) && fs == Reversed(d) && Apart(d) && forall f :: f in d ==> f.start < f.end
    ensures Disjoint(fs)
  {
    forall i | 0 <= i < |fs| - 1
      ensures fs[i].end <= fs[i + 1].start
    {
      var k := |d| - 1 - i;
      assert fs[i] == d[k] && fs[i + 1] == d[k - 1] && d[k - 1] in d;
      assert d[k - 1].start >= d[k].start && ApartFrom(d[k - 1], d[k]);
    }
  }

  lemma {:induction false} DisjointIsApart(d: seq<Span>, fs: seq<Span>, n: nat)
    requires fs == Reversed(d) && Layout(fs, n) && Disjoint(fs)
    ensures Apart(d)
  {
    forall i, j | 0 <= i < j < |d|
      ensures ApartFrom(d[i], d[j])
    {
      DisjointFar(fs, n, |d| - 1 - j, |d| - 1 - i);
      assert fs[|d| - 1 - j] == d[j] && fs[|d| - 1 - i] == d[i];
    }
  }

  lemma {:induction false} DisjointFar(fs: seq<Span>, n: nat, i: nat, j: nat)
    requires Layout(fs, n) && Disjoint(fs) && i < j < |fs|
    ensures fs[i].end <= fs[j].start
    decreases j
  {
    assert fs[i].end <= fs[i + 1].start <= fs[j].start;
  }

  /** Only the markers are new: without them the assembly is the text outside the spans, in order. */
  lemma {:induction false} KeptText(text: string, fs: seq<Span>, pos: nat)
    requires Layout(fs, |text|) && Disjoint(fs) && pos <= |text| && (fs != [] ==> pos <= fs[0].start)
    requires forall f :: f in fs ==> f.marker == ""
    ensures Assembled(text, fs, pos) == Outside(text, fs, pos)
    decreases |fs|
  {
    if fs == [] {
      OutsideAll(text, fs, pos, |text|);
      assert text[pos..|text|] == text[pos..];
    } else {
      var f := fs[0];
      LayoutTail(fs, |text|);
      KeptText(text, fs[1..], f.end);
      OutsideAll(text, fs, pos, f.start);
      OutsideSpan(text, fs);
      assert text[pos..f.start] + "" == text[pos..f.start];
    }
  }

  lemma {:induction false} OutsideSpan(text: string, fs: seq<Span>)
    requires fs != [] && fs[0].start <= fs[0].end <= |text|
    ensures Outside(text, fs, fs[0].start) == Outside(text, fs[1..], fs[0].end)
  {
    OutsideNone(text, fs, fs[0].start, fs[0].end);
    OutsideTail(text, fs, fs[0].end);
  }

  /** The characters from `pos` on that no span covers. */
  ghost function Outside(text: string, fs: seq<Span>, pos: nat): string
    requires pos <= |text|
    decreases |text| - pos
  {
    if pos == |text| then ""
    else (if Covered(fs, pos) then "" else [text[pos]]) + Outside(text, fs, pos + 1)
  }

  ghost predicate Covered(fs: seq<Span>, p: nat) {
    exists f :: f in fs && f.start <= p < f.end
  }

  lemma {:induction false} OutsideAll(text: string, fs: seq<Span>, pos: nat, end: nat)
    requires pos <= end <= |text| && Layout(fs, |text|) && (fs != [] ==> end <= fs[0].start)
    ensures Outside(text, fs, pos) == text[pos..end] + Outside(text, fs, end)
    decreases end - pos
  {
    if pos < end {
      OutsideAll(text, fs, pos + 1, end);
      NotCovered(fs, pos, |text|);
      assert text[pos..end] == [text[pos]] + text[pos + 1..end];
    }
  }

  lemma {:induction false} NotCovered(fs: seq<Span>, p: nat, n: nat)
    requires Layout(fs, n) && (fs != [] ==> p < fs[0].start)
    ensures !Covered(fs, p)
  {
    forall f | f in fs
      ensures p < f.start
    {
      var i :| 0 <= i < |fs| && fs[i] == f;
      assert i > 0 ==> fs[0].start <= fs[i].start;
    }
  }

  lemma {:induction false} OutsideNone(text: string, fs: seq<Span>, pos: nat, end: nat)
    requires fs != [] && fs[0].start <= pos <= end <= fs[0].end && end <= |text|
    ensures Outside(text, fs, pos) == Outside(text, fs, end)
    decreases end - pos
  {
    if pos < end {
      assert fs[0] in fs && Covered(fs, pos);
      OutsideNone(text, fs, pos + 1, end);
    }
  }

  lemma {:induction false} OutsideTail(text: string, fs: seq<Span>, pos: nat)
    requires fs != [] && fs[0].end <= pos <= |text|
    ensures Outside(text, fs, pos) == Outside(text, fs[1..], pos)
    decreases |text| - pos
  {
    if pos < |text| {
      OutsideTail(text, fs, pos + 1);
      if Covered(fs, pos) {
        var f :| f in fs && f.start <= pos < f.end;
        assert f in fs[1..];
      }
      if Covered(fs[1..], pos) {
        var f :| f in fs[1..] && f.start <= pos < f.end;
        assert f in fs;
      }
    }
  }

  lemma {:induction false} InnerThenOuter(text: string, inner: Span, outer: Span)
    requires |text| >= 40 && inner.start == 7 && inner.end == 27 && outer.start == 0 && outer.end == 40
    requires |inner.marker| == 28
    ensures Spliced(text, SortDescending([inner, outer])) == outer.marker + text[32..]
  {
    assert SortDescending([outer]) == [outer] by { assert [outer][1..] == []; }
    assert [inner, outer][1..] == [outer];
    assert SortDescending([inner, outer]) == [inner, outer];
    var t := Cut(text, inner);
    assert t == text[..7] + inner.marker + text[27..];
    assert t[40..] == text[32..];
    assert [outer][1..] == [];
    assert Spliced(Cut(t, outer), []) == Cut(t, outer);
    assert Spliced(t, [outer]) == Spliced(Cut(t, outer), [outer][1..]);
  }

  lemma {:induction false} SpansOfTwo(f: Finding, g: Finding)
    ensures Spans([f, g]) == [Span(f.start, f.end, Marker(f.kind)), Span(g.start, g.end, Marker(g.kind))]
  {
  }

  lemma {:induction false} OuterMarker()
    ensures Marker("generic_high_entropy") == "[REDACTED:generic_high_entropy]"
  {
  }

  lemma {:induction false} MarkerLength(kind: string)
    ensures |Marker(kind)| == |kind| + 11
  {
  }

  /**
   * Two findings the detector can report together: a key of 20 characters inside a generic token of 40.
   * The inner marker is longer than what it replaces, and the last 8 characters of the token survive.
   */
  lemma {:induction false} OverlapExample(text: string)
    requires |text| >= 40
    ensures var found := [Finding(7, 27, "aws_access_key_id"), Finding(0, 40, "generic_high_entropy")];
      Spliced(text, SortDescending(Spans(found))) == "[REDACTED:generic_high_entropy]" + text[32..]
  {
    var found := [Finding(7, 27, "aws_access_key_id"), Finding(0, 40, "generic_high_entropy")];
    var inner, outer := Span(7, 27, Marker("aws_access_key_id")), Span(0, 40, Marker("generic_high_entropy"));
    SpansOfTwo(found[0], found[1]);
    MarkerLength("aws_access_key_id");
    OuterMarker();
    InnerThenOuter(text, inner, outer);
  }
}
