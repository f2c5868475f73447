/** What redaction leaves of a secret when findings overlap: every character of the result, traced to the text. */
module RedactionLeaks {
  import opened Options
  import opened Redaction

  type Source = Option<nat>

  /** Where each character of a spliced text comes from: a position of the text, or a marker. */
  function Sources(n: nat, fs: seq<Span>): seq<Source> {
    if fs == [] then seq(n, i => Some(i)) else CutSources(Sources(n, fs[1..]), fs[0])
  }

  function CutSources(s: seq<Source>, f: Span): seq<Source> {
    (if f.start <= |s| then s[..f.start] else s) + seq(|f.marker|, _ => None) + if f.end <= |s| then s[f.end..] else []
  }

  lemma {:induction false} CutTold(text: string, t: string, s: seq<Source>, f: Span)
    requires |s| == |t| && forall i :: 0 <= i < |s| && s[i].Some? ==> s[i].value < |text| && t[i] == text[s[i].value]
    ensures var s', t' := CutSources(s, f), Cut(t, f);
      |s'| == |t'| && forall i :: 0 <= i < |s'| && s'[i].Some? ==> s'[i].value < |text| && t'[i] == text[s'[i].value]
  {
  }

  /** The trace is true: what it says comes from a position of the text is the character at that position. */
  lemma {:induction false} SourcesTold(text: string, fs: seq<Span>)
    ensures var s, t := Sources(|text|, fs), SplicedFromRight(text, fs);
      |s| == |t| && forall i :: 0 <= i < |s| && s[i].Some? ==> s[i].value < |text| && t[i] == text[s[i].value]
  {
    if fs != [] {
      SourcesTold(text, fs[1..]);
      CutTold(text, SplicedFromRight(text, fs[1..]), Sources(|text|, fs[1..]), fs[0]);
    }
  }

  ghost predicate Inside(k: nat, fs: seq<Span>) {
    exists f :: f in fs && f.start <= k < f.end
  }

  /** Some character of a secret is in the result. */
  ghost predicate Leaks(n: nat, fs: seq<Span>) {
    exists k: nat :: Some(k) in Sources(n, fs) && Inside(k, fs)
  }

  // ----- which text is kept

  function Tail(s: seq<Source>, o: nat): seq<Source> {
    if o <= |s| then s[o..] else []
  }

  /** What is left of span `f`'s text and what follows it, when everything before offset `o` is cut away. */
  function Next(o: nat, f: Span): nat {
    if o <= f.start + |f.marker| then f.end else f.end + (o - f.start - |f.marker|)
  }

  /** From offset `o` of the spliced text on, position `k` of the text is kept. */
  predicate Kept(fs: seq<Span>, o: nat, k: nat)
    decreases |fs|
  {
    if fs == [] then o <= k
    else o <= k < fs[0].start || Kept(fs[1..], Next(o, fs[0]), k)
  }

  lemma {:induction false} TailLayout(fs: seq<Span>, n: nat)
    requires fs != [] && Layout(fs, n)
    ensures Layout(fs[1..], n) && fs[0].start < fs[0].end <= n && (|fs| > 1 ==> fs[0].start <= fs[1].start)
  {
    LayoutTail(fs, n);
  }

  /** Up to where the first cut is made the text is untouched. */
  lemma {:induction false} Untouched(n: nat, fs: seq<Span>, p: nat)
    requires Layout(fs, n) && p <= n && (fs != [] ==> p <= fs[0].start)
    ensures |Sources(n, fs)| >= p && Sources(n, fs)[..p] == seq(p, i => Some(i))
  {
    if fs != [] {
      TailLayout(fs, n);
      Untouched(n, fs[1..], fs[0].start);
      assert Sources(n, fs)[..p] == Sources(n, fs[1..])[..fs[0].start][..p];
    }
  }

  lemma {:induction false} TailOfCut(s: seq<Source>, f: Span, o: nat, k: nat)
    requires f.start <= |s| && s[..f.start] == seq(f.start, i => Some(i))
    ensures Some(k) in Tail(CutSources(s, f), o) <==> o <= k < f.start || Some(k) in Tail(s, Next(o, f))
  {
    var marker, rest := seq(|f.marker|, _ => None), Tail(s, f.end);
    assert CutSources(s, f) == s[..f.start] + marker + rest;
    if o <= f.start {
      assert Tail(CutSources(s, f), o) == s[..f.start][o..] + marker + rest;
      assert Some(k) in s[..f.start][o..] <==> o <= k < f.start by {
        if o <= k < f.start { assert s[..f.start][o..][k - o] == Some(k); }
      }
    } else if o <= f.start + |f.marker| {
      assert Tail(CutSources(s, f), o) == marker[o - f.start..] + rest;
    } else {
      assert Tail(CutSources(s, f), o) == Tail(s, Next(o, f));
    }
  }

  lemma {:induction false} KeptExactly(n: nat, fs: seq<Span>, o: nat, k: nat)
    requires Layout(fs, n)
    ensures Some(k) in Tail(Sources(n, fs), o) <==> k < n && Kept(fs, o, k)
    decreases |fs|
  {
    var s := Sources(n, fs);
    if fs == [] {
      if o <= k < n { assert Tail(s, o)[k - o] == Some(k); }
    } else {
      var f := fs[0];
      TailLayout(fs, n);
      Untouched(n, fs[1..], f.start);
      TailOfCut(Sources(n, fs[1..]), f, o, k);
      KeptExactly(n, fs[1..], Next(o, f), k);
    }
  }

  // ----- when something is kept that should not be

  /**
   * One pass over the spans from left to right: wherever the text goes on, before a span or at the end, it does so
   * behind the end of every span so far. `o` is where it would go on, `end` the farthest end.
   */
  predicate Hides(n: nat, fs: seq<Span>, o: nat, end: nat)
    decreases |fs|
  {
    if fs == [] then o >= n || o >= end
    else (o >= fs[0].start || o >= end) && Hides(n, fs[1..], Next(o, fs[0]), Max(end, fs[0].end))
  }

  lemma {:induction false} KeptFrom(fs: seq<Span>, o: nat, k: nat, b: nat)
    requires Kept(fs, o, k) && o >= b && forall f :: f in fs ==> f.end >= b
    ensures k >= b
    decreases |fs|
  {
    if fs != [] && !(o <= k < fs[0].start) {
      assert fs[0] in fs && forall f :: f in fs[1..] ==> f in fs;
      KeptFrom(fs[1..], Next(o, fs[0]), k, b);
    }
  }

  /** Some kept position lies before `end` or inside a span still to come. */
  ghost predicate Shows(n: nat, fs: seq<Span>, o: nat, end: nat) {
    exists k: nat :: k < n && Kept(fs, o, k) && (k < end || Inside(k, fs))
  }

  lemma {:induction false} InsideCons(fs: seq<Span>, k: nat)
    requires fs != []
    ensures Inside(k, fs) <==> fs[0].start <= k < fs[0].end || Inside(k, fs[1..])
  {
    assert fs == [fs[0]] + fs[1..];
    assert fs[0] in fs && forall f :: f in fs <==> f == fs[0] || f in fs[1..];
  }

  lemma {:induction false} NotInsideBefore(fs: seq<Span>, n: nat, k: nat)
    requires Layout(fs, n) && fs != [] && k < fs[0].start
    ensures !Inside(k, fs)
  {
    forall f | f in fs
      ensures f.start > k
    {
      var i :| 0 <= i < |fs| && fs[i] == f;
      assert i > 0 ==> fs[0].start <= fs[i].start;
    }
  }

  /** Of the positions kept behind a span's start, the span and earlier ends hide the same as the farther end does. */
  lemma {:induction false} FartherEnd(n: nat, fs: seq<Span>, o: nat, end: nat, k: nat)
    requires fs != [] && Layout(fs, n) && Kept(fs[1..], Next(o, fs[0]), k)
    ensures k < end || Inside(k, fs) <==> k < Max(end, fs[0].end) || Inside(k, fs[1..])
  {
    TailLayout(fs, n);
    InsideCons(fs, k);
    forall f | f in fs[1..]
      ensures f.end >= fs[0].start
    {
      var i :| 0 <= i < |fs[1..]| && fs[1..][i] == f;
      assert fs[0].start <= fs[i + 1].start && fs[i + 1] in fs;
    }
    KeptFrom(fs[1..], Next(o, fs[0]), k, fs[0].start);
  }

  lemma {:induction false} ShowsExactly(n: nat, fs: seq<Span>, o: nat, end: nat)
    requires Layout(fs, n) && end <= n
    ensures Shows(n, fs, o, end) <==> !Hides(n, fs, o, end)
    decreases |fs|
  {
    if fs == [] {
      assert forall k: nat :: !Inside(k, fs);
      assert o < n && o < end ==> Kept(fs, o, o);
    } else {
      var f, o', end' := fs[0], Next(o, fs[0]), Max(end, fs[0].end);
      TailLayout(fs, n);
      ShowsExactly(n, fs[1..], o', end');
      if Shows(n, fs[1..], o', end') {
        var k: nat :| k < n && Kept(fs[1..], o', k) && (k < end' || Inside(k, fs[1..]));
        FartherEnd(n, fs, o, end, k);
        assert Kept(fs, o, k);
      }
      if o < f.start && o < end {
        assert Kept(fs, o, o);
      }
      if Shows(n, fs, o, end) {
        var k: nat :| k < n && Kept(fs, o, k) && (k < end || Inside(k, fs));
        if o <= k < f.start {
          NotInsideBefore(fs, n, k);
        } else {
          FartherEnd(n, fs, o, end, k);
        }
      }
    }
  }

  /** Something of a secret is in the result if and only if the pass over the spans finds where. */
  lemma {:induction false} LeaksExactly(n: nat, fs: seq<Span>)
    requires Layout(fs, n)
    ensures Leaks(n, fs) <==> !Hides(n, fs, 0, 0)
  {
    ShowsExactly(n, fs, 0, 0);
    forall k: nat
      ensures Some(k) in Sources(n, fs) <==> k < n && Kept(fs, 0, k)
    {
      KeptExactly(n, fs, 0, k);
      assert Tail(Sources(n, fs), 0) == Sources(n, fs);
    }
  }

  /** The same for the findings as they are given, in any order. */
  lemma {:induction false} FindingsLeakExactly(text: string, findings: seq<Span>, fs: seq<Span>)
    requires (forall f :: f in findings ==> f.start < f.end <= |text|) && fs == Reversed(SortDescending(findings))
    ensures Spliced(text, SortDescending(findings)) == SplicedFromRight(text, fs) && Layout(fs, |text|)
    ensures Leaks(|text|, fs) <==> !Hides(|text|, fs, 0, 0)
  {
    LeftToRight(findings, SortDescending(findings), fs, |text|);
    SplicedAsListed(text, SortDescending(findings));
    LeaksExactly(|text|, fs);
  }

  /** Of two findings: the later one ends inside the other, and its marker is longer than what it replaces. */
  lemma {:induction false} TwoLeakExactly(n: nat, f: Span, g: Span)
    requires f.start <= g.start && f.start < f.end <= n && g.start < g.end <= n
    ensures Leaks(n, [f, g]) <==> g.end < f.end && |g.marker| > g.end - g.start
  {
    var fs := [f, g];
    LeaksExactly(n, fs);
    assert fs[1..] == [g] && [g][1..] == [];
    var o := Next(f.end, g);
    assert Hides(n, fs, 0, 0) <==> Hides(n, fs[1..], f.end, f.end);
    assert Hides(n, [g], f.end, f.end) <==> Hides(n, [g][1..], o, Max(f.end, g.end));
  }

  /** However many there are, none leaks if no marker is longer than what it replaces. */
  lemma {:induction false} ShortMarkersHide(n: nat, fs: seq<Span>, o: nat, end: nat)
    requires Layout(fs, n) && o >= end && forall f :: f in fs ==> |f.marker| <= f.end - f.start
    ensures Hides(n, fs, o, end)
    decreases |fs|
  {
    if fs != [] {
      TailLayout(fs, n);
      assert fs[0] in fs && forall f :: f in fs[1..] ==> f in fs;
      ShortMarkersHide(n, fs[1..], Next(o, fs[0]), Max(end, fs[0].end));
    }
  }

  /** And none leaks if they end in the order they start in. */
  lemma {:induction false} EndsInOrderHide(n: nat, fs: seq<Span>, o: nat, end: nat)
    requires Layout(fs, n) && o >= end && (fs != [] ==> end <= fs[0].end)
    requires forall i, j :: 0 <= i < j < |fs| ==> fs[i].end <= fs[j].end
    ensures Hides(n, fs, o, end)
    decreases |fs|
  {
    if fs != [] {
      TailLayout(fs, n);
      EndsInOrderHide(n, fs[1..], Next(o, fs[0]), fs[0].end);
    }
  }
}
