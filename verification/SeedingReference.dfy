/**
 * Seeding as one recurrence of words: mixing step `t` writes a word made from the one written just before it and
 * the one written 623 steps before it. The index that wraps and the copied word 0 do not appear.
 */
module SeedingReference {
  import opened Bits
  import opened Recurrence
  import opened Seeding

  /** `p ^ (p >>> 30)` */
  function Scrambled(p: Word): Word {
    XorW(p, p / 0x4000_0000)
  }

  /** Word `i` of a vector that a single word seeds. */
  ghost predicate Grows(g: State, i: nat)
    requires 1 <= i < 624
  {
    g[i] == (1812433253 * Scrambled(g[i - 1]) + i) % 0x1_0000_0000
  }

  function Steps(key: seq<Word>): nat {
    if |key| > 624 then |key| else 624
  }

  /** What step `t` makes of the two words it reads; the key is read round and round for `Steps(key)` steps. */
  function Made(key: seq<Word>, t: nat, was: Word, prev: Word): Word
    requires key != []
  {
    if t < Steps(key) then
      (XorW(was, Scrambled(prev) * 1664525 % 0x1_0000_0000) + key[t % |key|] + t % |key|) % 0x1_0000_0000
    else
      (XorW(was, Scrambled(prev) * 1566083941 % 0x1_0000_0000) - (1 + t % 623)) % 0x1_0000_0000
  }

  /** Word `t` of those written over the base vector `g`. */
  ghost predicate Follows(key: seq<Word>, g: State, w: seq<Word>, t: nat)
    requires key != [] && t < |w|
  {
    w[t] == Made(key, t, if t < 623 then g[1 + t] else w[t - 623], if t == 0 then g[0] else w[t - 1])
  }

  ghost predicate Run(key: seq<Word>, g: State, w: seq<Word>)
    requires key != []
  {
    forall t: nat :: t < |w| ==> Follows(key, g, w, t)
  }

  lemma {:induction false} ScrambledIs(p: Word)
    ensures Scramble(p) == Scrambled(p)
  {
    var m := 30;
    ShrIsDiv(p, m);
    assert Pow2(m) == 0x4000_0000 by { assert Pow2(10) == 1024 && Pow2(20) == 0x10_0000; }
  }

  lemma {:induction false} GenrandPrefixAt(seed: Word, n: nat, i: nat)
    requires 0 < i < n
    ensures GenrandPrefix(seed, n)[0] == seed
    ensures GenrandPrefix(seed, n)[i] == ToWord(1812433253 * Scramble(GenrandPrefix(seed, n)[i - 1]) + i)
    decreases n
  {
    if i < n - 1 {
      GenrandPrefixAt(seed, n - 1, i);
    } else if n > 2 {
      GenrandPrefixAt(seed, n - 1, n - 2);
    }
  }

  lemma {:induction false} GenrandGrows(i: nat)
    requires 1 <= i < 624
    ensures InitGenrand(BASE_SEED)[0] == 19650218 && Grows(InitGenrand(BASE_SEED), i)
  {
    var g, n := InitGenrand(BASE_SEED), |Blank()|;
    GenrandPrefixAt(BASE_SEED, n, i);
    ScrambledIs(g[i - 1]);
  }

  // ----- the vector along the way

  /** The vector holds the last 623 words written, and before that the base's own words. */
  ghost predicate Holds(m: State, g: State, w: seq<Word>) {
    && (forall u: nat :: u < |w| <= u + 623 ==> m[IndexAt(u)] == w[u])
    && (forall i :: |w| < i < N ==> m[i] == g[i])
    && (|w| == 0 ==> m[0] == g[0])
    && (|w| > 0 && IndexAt(|w|) == 1 ==> m[0] == w[|w| - 1])
  }

  lemma {:induction false} Ordered(a: nat, b: nat, d: nat)
    requires a <= b
    ensures d * a <= d * b
  {
    if a < b {
      assert d * b == d * a + d * (b - a);
    }
  }

  lemma {:induction false} SameRest(u: nat, t: nat, d: nat)
    requires d > 0 && u < t && u % d == t % d
    ensures t >= u + d
  {
    if t / d <= u / d {
      Ordered(t / d, u / d, d);
    } else {
      Ordered(u / d + 1, t / d, d);
    }
  }

  lemma {:induction false} IndexAround(t: nat)
    requires t >= 623
    ensures IndexAt(t - 623) == IndexAt(t)
  {
    DivUnique(t - 623, 623, t / 623 - 1, t % 623);
  }

  lemma {:induction false} IndexEarly(t: nat)
    requires t < 623
    ensures IndexAt(t) == 1 + t
  {
    ModSmall(t, 623);
  }

  lemma {:induction false} ReadBefore(m: State, g: State, w: seq<Word>)
    requires Holds(m, g, w)
    ensures m[IndexAt(|w|) - 1] == if w == [] then g[0] else w[|w| - 1]
    ensures m[IndexAt(|w|)] == if |w| < 623 then g[1 + |w|] else w[|w| - 623]
  {
    var t := |w|;
    if t > 0 {
      IndexNext(t - 1);
      assert m[IndexAt(t - 1)] == w[t - 1];
    } else {
      IndexEarly(0);
    }
    if t < 623 {
      IndexEarly(t);
    } else {
      IndexAround(t);
      assert m[IndexAt(t - 623)] == w[t - 623];
    }
  }

  /** A step that writes `x` keeps the account of the words written. */
  lemma {:induction false} HoldsNext(m: State, g: State, w: seq<Word>, multiplier: Word, addend: int)
    requires Holds(m, g, w)
    ensures Holds(Step(m, IndexAt(|w|), multiplier, addend), g,
                  w + [Mixed(m[IndexAt(|w|)], m[IndexAt(|w|) - 1], multiplier, addend)])
  {
    var t, j := |w|, IndexAt(|w|);
    var x := Mixed(m[j], m[j - 1], multiplier, addend);
    var m', w' := Step(m, j, multiplier, addend), w + [x];
    IndexNext(t);
    forall u: nat | u < |w'| <= u + 623
      ensures m'[IndexAt(u)] == w'[u]
    {
      if u < t && IndexAt(u) == j {
        SameRest(u, t, 623);
      }
    }
    forall i | |w'| < i < N
      ensures m'[i] == g[i]
    {
      IndexEarly(t);
    }
  }

  lemma {:induction false} RunNext(key: seq<Word>, g: State, w: seq<Word>, x: Word)
    requires key != [] && Run(key, g, w)
    requires x == Made(key, |w|, if |w| < 623 then g[1 + |w|] else w[|w| - 623], if w == [] then g[0] else w[|w| - 1])
    ensures Run(key, g, w + [x])
  {
    forall t: nat | t < |w + [x]|
      ensures Follows(key, g, w + [x], t)
    {
      if t < |w| {
        assert Follows(key, g, w, t);
      }
    }
  }

  lemma {:induction false} SumReduced(x: nat, y: nat, d: nat)
    requires d > 0
    ensures (x + y) % d == (x + y % d) % d
  {
    DivUnique(x + y, d, (x + y % d) / d + y / d, (x + y % d) % d);
  }

  lemma {:induction false} MixedUnreduced(was: Word, prev: Word, multiplier: Word, x: nat)
    ensures Mixed(was, prev, multiplier, ToWord(x))
         == (XorW(was, Scrambled(prev) * multiplier % TWO32) + x) % TWO32
  {
    ScrambledIs(prev);
    SumReduced(XorW(was, ToWord(Scramble(prev) * multiplier)), x, TWO32);
  }

  lemma {:induction false} MadeByKey(key: seq<Word>, t: nat, was: Word, prev: Word)
    requires key != [] && t < Steps(key)
    ensures Mixed(was, prev, KEY_MULTIPLIER, Addend(key, t)) == Made(key, t, was, prev)
  {
    MixedUnreduced(was, prev, KEY_MULTIPLIER, key[t % |key|] + t % |key|);
  }

  lemma {:induction false} MadeAtLast(key: seq<Word>, t: nat, was: Word, prev: Word)
    requires key != [] && t >= Steps(key)
    ensures Mixed(was, prev, FINAL_MULTIPLIER, -(IndexAt(t) as int)) == Made(key, t, was, prev)
  {
    ScrambledIs(prev);
  }

  /** A step that writes what the recurrence makes of the words it reads continues the run. */
  lemma {:induction false} Extend(key: seq<Word>, g: State, m: State, w: seq<Word>, multiplier: Word, addend: int)
    returns (w': seq<Word>)
    requires key != [] && Run(key, g, w) && Holds(m, g, w)
    requires Mixed(m[IndexAt(|w|)], m[IndexAt(|w|) - 1], multiplier, addend)
          == Made(key, |w|, m[IndexAt(|w|)], m[IndexAt(|w|) - 1])
    ensures |w'| == |w| + 1 && Run(key, g, w') && Holds(Step(m, IndexAt(|w|), multiplier, addend), g, w')
  {
    var x := Mixed(m[IndexAt(|w|)], m[IndexAt(|w|) - 1], multiplier, addend);
    ReadBefore(m, g, w);
    HoldsNext(m, g, w, multiplier, addend);
    RunNext(key, g, w, x);
    w' := w + [x];
  }

  lemma {:induction false} KeyRun(key: seq<Word>, g: State, t: nat) returns (w: seq<Word>)
    requires key != [] && t <= Steps(key)
    ensures |w| == t && Run(key, g, w) && Holds(KeyPass(g, Addends(key, t)), g, w)
    decreases t
  {
    w := [];
    if t > 0 {
      var k := t - 1;
      var m := KeyPass(g, Addends(key, k));
      w := KeyRun(key, g, k);
      MadeByKey(key, k, m[IndexAt(k)], m[IndexAt(k) - 1]);
      w := Extend(key, g, m, w, KEY_MULTIPLIER, Addend(key, k));
      KeyPassSnoc(g, Addends(key, k), Addend(key, k));
    }
  }

  lemma {:induction false} FinalStep(key: seq<Word>, g: State, m: State, start: nat, k: nat, w: seq<Word>)
    returns (w': seq<Word>)
    requires key != [] && |w| == start + k >= Steps(key) && Run(key, g, w) && Holds(FinalPass(m, start, k), g, w)
    ensures |w'| == start + (k + 1) && Run(key, g, w') && Holds(FinalPass(m, start, k + 1), g, w')
  {
    var f := FinalPass(m, start, k);
    MadeAtLast(key, |w|, f[IndexAt(|w|)], f[IndexAt(|w|) - 1]);
    w' := Extend(key, g, f, w, FINAL_MULTIPLIER, -(IndexAt(|w|) as int));
    FinalPassNext(m, start, k);
  }

  lemma {:induction false} FinalPassNext(m: State, start: nat, k: nat)
    ensures FinalPass(m, start, k + 1)
         == Step(FinalPass(m, start, k), IndexAt(start + k), FINAL_MULTIPLIER, -(IndexAt(start + k) as int))
  {
  }

  lemma {:induction false} FinalRun(key: seq<Word>, g: State, m: State, w0: seq<Word>, n: nat) returns (w: seq<Word>)
    requires key != [] && |w0| == Steps(key) && Run(key, g, w0) && Holds(m, g, w0)
    ensures |w| == |w0| + n && Run(key, g, w) && Holds(FinalPass(m, |w0|, n), g, w)
  {
    w := w0;
    var k := 0;
    while k < n
      invariant k <= n && |w| == |w0| + k && Run(key, g, w) && Holds(FinalPass(m, |w0|, k), g, w)
    {
      w := FinalStep(key, g, m, |w0|, k, w);
      k := k + 1;
    }
  }

  ghost predicate Grown(g: State) {
    g[0] == 19650218 && forall i: nat :: 1 <= i < 624 ==> Grows(g, i)
  }

  lemma {:induction false} BaseGrown()
    ensures Grown(InitGenrand(BASE_SEED))
  {
    forall i: nat | 1 <= i < 624
      ensures InitGenrand(BASE_SEED)[0] == 19650218 && Grows(InitGenrand(BASE_SEED), i)
    {
      GenrandGrows(i);
    }
    assert Grows(InitGenrand(BASE_SEED), 1);
  }

  /** The seeded vector: 0x80000000, and the last 623 words written, each at its place. */
  lemma {:induction false} SeededWords(n: int) returns (g: State, w: seq<Word>)
    ensures Grown(g) && |w| == Steps(Key(Magnitude(n))) + 623 && Run(Key(Magnitude(n)), g, w)
    ensures SeedState(n)[0] == 0x8000_0000
    ensures forall t: nat :: Steps(Key(Magnitude(n))) <= t < |w| ==> SeedState(n)[1 + t % 623] == w[t]
  {
    g := InitGenrand(BASE_SEED);
    BaseGrown();
    w := SeededRun(Key(Magnitude(n)), g);
  }

  lemma {:induction false} SeededRun(key: seq<Word>, g: State) returns (w: seq<Word>)
    requires key != []
    ensures |w| == Steps(key) + 623 && Run(key, g, w)
    ensures forall t: nat :: Steps(key) <= t < |w| ==> InitFrom(g, key)[1 + t % 623] == w[t]
  {
    var steps := KeySteps(key);
    var m := KeyPass(g, Addends(key, steps));
    var w0 := KeyRun(key, g, steps);
    w := FinalRun(key, g, m, w0, |g| - 1);
    var f := FinalPass(m, steps, |g| - 1);
    forall t: nat | Steps(key) <= t < |w|
      ensures InitFrom(g, key)[1 + t % 623] == w[t]
    {
      LastWord(f, g, w, t);
    }
  }

  lemma {:induction false} LastWord(m: State, g: State, w: seq<Word>, t: nat)
    requires Holds(m, g, w) && t < |w| <= t + 623
    ensures m[0 := TWO31][1 + t % 623] == w[t]
  {
    assert m[IndexAt(t)] == w[t];
  }
}
