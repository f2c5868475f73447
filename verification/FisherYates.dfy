/** The Fisher-Yates shuffle as a function of its choices, and the bijection from choices to orders. */
module FisherYates {

  function Swap<T>(s: seq<T>, i: nat, j: nat): seq<T>
    requires i < |s| && j < |s|
  {
    s[i := s[j]][j := s[i]]
  }

  /** One choice per index from the last down to 1: the choice for index i lies in 0..i. */
  ghost predicate Choices(n: nat, js: seq<nat>) {
    |js| == (if n == 0 then 0 else n - 1) && forall k :: 0 <= k < |js| ==> js[k] < n - k
  }

  function Shuffled<T>(s: seq<T>, js: seq<nat>): (r: seq<T>)
    requires Choices(|s|, js)
    ensures |r| == |s|
    decreases |s|
  {
    if |s| <= 1 then s
    else
      var last := |s| - 1;
      var t := Swap(s, last, js[0]);
      Shuffled(t[..last], js[1..]) + [t[last]]
  }

  lemma {:induction false} SwapMultiset<T>(s: seq<T>, i: nat, j: nat)
    requires i < |s| && j < |s|
    ensures multiset(Swap(s, i, j)) == multiset(s)
  {
  }

  lemma {:induction false} SplitLast<T>(s: seq<T>)
    requires s != []
    ensures multiset(s) == multiset(s[..|s| - 1]) + multiset{s[|s| - 1]}
  {
    assert s == s[..|s| - 1] + [s[|s| - 1]];
  }

  /** A shuffle loses and invents nothing. */
  lemma {:induction false} ShuffledMultiset<T>(s: seq<T>, js: seq<nat>)
    requires Choices(|s|, js)
    ensures multiset(Shuffled(s, js)) == multiset(s)
    decreases |s|
  {
    if |s| > 1 {
      var last := |s| - 1;
      var t := Swap(s, last, js[0]);
      SwapMultiset(s, last, js[0]);
      ShuffledMultiset(t[..last], js[1..]);
      SplitLast(t);
    }
  }

  ghost predicate Distinct<T>(s: seq<T>) {
    forall i, j :: 0 <= i < j < |s| ==> s[i] != s[j]
  }

  lemma {:induction false} SwapDistinct<T>(s: seq<T>, i: nat, j: nat)
    requires i < |s| && j < |s| && Distinct(s)
    ensures Distinct(Swap(s, i, j))
  {
  }

  /** Different choices give different orders. */
  lemma {:induction false} ShuffledInjective<T>(s: seq<T>, js: seq<nat>, js': seq<nat>)
    requires Distinct(s) && Choices(|s|, js) && Choices(|s|, js')
    requires Shuffled(s, js) == Shuffled(s, js')
    ensures js == js'
    decreases |s|
  {
    if |s| > 1 {
      var last := |s| - 1;
      var t, t' := Swap(s, last, js[0]), Swap(s, last, js'[0]);
      assert Shuffled(s, js)[last] == s[js[0]] && Shuffled(s, js')[last] == s[js'[0]];
      assert js[0] == js'[0];
      SwapDistinct(s, last, js[0]);
      var r, r' := Shuffled(t[..last], js[1..]), Shuffled(t'[..last], js'[1..]);
      assert r == Shuffled(s, js)[..last] && r' == Shuffled(s, js')[..last];
      ShuffledInjective(t[..last], js[1..], js'[1..]);
      assert js == [js[0]] + js[1..] && js' == [js'[0]] + js'[1..];
    }
  }

  lemma {:induction false} SameRest<T>(a: multiset<T>, b: multiset<T>, x: T)
    requires a + multiset{x} == b + multiset{x}
    ensures a == b
  {
    assert a == (a + multiset{x}) - multiset{x};
    assert b == (b + multiset{x}) - multiset{x};
  }

  /** Every order is reached. */
  lemma {:induction false} ShuffledSurjective<T>(s: seq<T>, p: seq<T>) returns (js: seq<nat>)
    requires multiset(p) == multiset(s)
    ensures Choices(|s|, js) && Shuffled(s, js) == p
    decreases |s|
  {
    SameSize(s, p);
    if |s| <= 1 {
      js := [];
      OneOrder(s, p);
    } else {
      var last := |s| - 1;
      var j := PlaceOf(s, p);
      var t := Swap(s, last, j);
      SwapRest(s, p, j);
      var rest := ShuffledSurjective(t[..last], p[..last]);
      js := [j] + rest;
      ShuffledCons(s, j, rest);
      assert p == p[..last] + [p[last]];
    }
  }

  lemma {:induction false} SameSize<T>(s: seq<T>, p: seq<T>)
    requires multiset(p) == multiset(s)
    ensures |p| == |s|
  {
    assert |p| == |multiset(p)| == |multiset(s)| == |s|;
  }

  lemma {:induction false} OneOrder<T>(s: seq<T>, p: seq<T>)
    requires multiset(p) == multiset(s) && |s| == |p| <= 1
    ensures p == s
  {
    if |s| == 1 {
      assert p[0] in multiset(s) && s == [s[0]] && p == [p[0]];
    }
  }

  lemma {:induction false} PlaceOf<T>(s: seq<T>, p: seq<T>) returns (j: nat)
    requires multiset(p) == multiset(s) && |s| == |p| > 0
    ensures j < |s| && s[j] == p[|p| - 1]
  {
    assert p[|p| - 1] in multiset(s);
    j :| 0 <= j < |s| && s[j] == p[|p| - 1];
  }

  lemma {:induction false} ShuffledCons<T>(s: seq<T>, j: nat, rest: seq<nat>)
    requires |s| > 1 && j < |s| && Choices(|s| - 1, rest)
    ensures Choices(|s|, [j] + rest)
    ensures Shuffled(s, [j] + rest) == Shuffled(Swap(s, |s| - 1, j)[..|s| - 1], rest) + [s[j]]
  {
    var js := [j] + rest;
    assert js[1..] == rest;
  }

  lemma {:induction false} SwapRest<T>(s: seq<T>, p: seq<T>, j: nat)
    requires |p| == |s| && j < |s| && multiset(p) == multiset(s) && s[j] == p[|p| - 1]
    ensures var last := |s| - 1; multiset(p[..last]) == multiset(Swap(s, last, j)[..last])
  {
    var last := |s| - 1;
    var t := Swap(s, last, j);
    SwapMultiset(s, last, j);
    SplitLast(t);
    SplitLast(p);
    SameRest(multiset(t[..last]), multiset(p[..last]), p[last]);
  }

  /** For distinct elements each order arises from exactly one sequence of choices. */
  lemma {:induction false} ShuffleIsBijective<T>(s: seq<T>, p: seq<T>)
    requires Distinct(s)
    ensures multiset(p) == multiset(s) <==> exists js :: Choices(|s|, js) && Shuffled(s, js) == p
    ensures forall js, js' :: Choices(|s|, js) && Choices(|s|, js') && Shuffled(s, js) == p == Shuffled(s, js')
              ==> js == js'
  {
    if multiset(p) == multiset(s) {
      var js := ShuffledSurjective(s, p);
    }
    forall js | Choices(|s|, js) && Shuffled(s, js) == p
      ensures multiset(p) == multiset(s)
    {
      ShuffledMultiset(s, js);
    }
    forall js, js' | Choices(|s|, js) && Choices(|s|, js') && Shuffled(s, js) == p == Shuffled(s, js')
      ensures js == js'
    {
      ShuffledInjective(s, js, js');
    }
  }

  /** What is left to do of a shuffle at index `i`: the last |s|-1-i places are settled. */
  lemma {:induction false} ShuffledStep<T>(s: seq<T>, tail: seq<T>, js: seq<nat>)
    requires |s| >= 2 && Choices(|s|, js)
    ensures var t := Swap(s, |s| - 1, js[0]);
      Choices(|s| - 1, js[1..]) && Shuffled(s, js) + tail == Shuffled(t[..|s| - 1], js[1..]) + ([t[|s| - 1]] + tail)
  {
  }

  /** The swaps themselves, one after the other: the first choice goes with place `i`, the next with the one below. */
  function Swaps<T>(s: seq<T>, i: int, js: seq<nat>): seq<T>
    requires i < |s| && |js| <= (if i < 0 then 0 else i) && forall k :: 0 <= k < |js| ==> js[k] <= i - k
    decreases |js|
  {
    if js == [] then s else Swaps(s[i := s[js[0]]][js[0] := s[i]], i - 1, js[1..])
  }

  lemma {:induction false} SwapsBefore<T>(s: seq<T>, tail: seq<T>, js: seq<nat>)
    requires Choices(|s|, js)
    ensures Swaps(s + tail, |s| - 1, js) == Shuffled(s, js) + tail
    decreases |s|
  {
    if |s| > 1 {
      var last := |s| - 1;
      var t := Swap(s, last, js[0]);
      assert (s + tail)[last := (s + tail)[js[0]]][js[0] := (s + tail)[last]] == t[..last] + ([t[last]] + tail);
      SwapsBefore(t[..last], [t[last]] + tail, js[1..]);
      ShuffledStep(s, tail, js);
    }
  }

  /** A shuffle is its swaps, from the last place down. */
  lemma {:induction false} ShuffledIsSwaps<T>(s: seq<T>, js: seq<nat>)
    requires Choices(|s|, js)
    ensures Shuffled(s, js) == Swaps(s, |s| - 1, js)
  {
    SwapsBefore(s, [], js);
    assert s + [] == s && Shuffled(s, js) + [] == Shuffled(s, js);
  }
}
