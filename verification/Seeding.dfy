/** `init_genrand` and `init_by_array` as functions of the key, and the key of an integer seed. */
module Seeding {
  import opened Bits
  import opened Recurrence
  import opened Tempering

  const BASE_SEED: Word := 19650218
  const KEY_MULTIPLIER: Word := 1664525
  const FINAL_MULTIPLIER: Word := 1566083941

  /** `prev ^ (prev >>> 30)` */
  function Scramble(prev: Word): Word {
    ShrBound(prev, 30);
    XorW(prev, Shr(prev, 30))
  }

  function GenrandPrefix(seed: Word, n: nat): (s: seq<Word>)
    requires n > 0
    ensures |s| == n
  {
    if n == 1 then [seed]
    else
      var s := GenrandPrefix(seed, n - 1);
      s + [ToWord(1812433253 * Scramble(s[n - 2]) + (n - 1))]
  }

  /** The vector of a generator that has not been seeded. */
  function Blank(): (s: State)
    ensures forall i :: 0 <= i < N ==> s[i] == 0
  {
    seq<Word>(N, i => 0)
  }

  function InitGenrand(seed: Word): State {
    GenrandPrefix(seed, |Blank()|)
  }

  /** `((was ^ Math.imul(scrambled prev, multiplier)) + addend) >>> 0` */
  function Mixed(was: Word, prev: Word, multiplier: Word, addend: int): Word {
    ToWord(XorW(was, ToWord(Scramble(prev) * multiplier)) + addend)
  }

  /** One mixing step at word `i`; after the last word, word 0 takes its value. */
  function Step(m: State, i: nat, multiplier: Word, addend: int): State
    requires 1 <= i < N
  {
    var m' := m[i := Mixed(m[i], m[i - 1], multiplier, addend)];
    if i + 1 >= N then m'[0 := m'[N - 1]] else m'
  }

  /** The word that step `t` works on, counting from 0: 1 to 623, over and over. */
  function IndexAt(t: nat): (i: nat)
    ensures 1 <= i < N
  {
    1 + t % (N - 1)
  }

  lemma {:induction false} IndexNext(t: nat)
    ensures IndexAt(t + 1) == if IndexAt(t) + 1 >= N then 1 else IndexAt(t) + 1
  {
    ModNext(t, N - 1);
  }

  lemma {:induction false} ModNext(t: nat, d: nat)
    requires d > 0
    ensures (t + 1) % d == if t % d + 1 == d then 0 else t % d + 1
  {
    var q, r := t / d, t % d;
    assert t == q * d + r;
    if r + 1 == d {
      assert t + 1 == (q + 1) * d + 0;
      DivUnique(t + 1, d, q + 1, 0);
    } else {
      DivUnique(t + 1, d, q, r + 1);
    }
  }

  /** What key step `t` adds: `key[j] + j` where `j` runs cyclically through the key. */
  function Addend(key: seq<Word>, t: nat): Word
    requires key != []
  {
    ToWord(key[t % |key|] + t % |key|)
  }

  function Addends(key: seq<Word>, n: nat): (a: seq<Word>)
    requires key != []
    ensures |a| == n && forall t :: 0 <= t < n ==> a[t] == Addend(key, t)
  {
    if n == 0 then [] else Addends(key, n - 1) + [Addend(key, n - 1)]
  }

  function KeyPass(m: State, a: seq<Word>): State
    decreases |a|
  {
    if a == [] then m
    else
      var t := |a| - 1;
      Step(KeyPass(m, a[..t]), IndexAt(t), KEY_MULTIPLIER, a[t])
  }

  function FinalPass(m: State, start: nat, n: nat): State
    decreases n
  {
    if n == 0 then m
    else
      var i: int := IndexAt(start + n - 1);
      Step(FinalPass(m, start, n - 1), i, FINAL_MULTIPLIER, -i)
  }

  function KeySteps(key: seq<Word>): nat {
    if N > |key| then N else |key|
  }

  /** The two mixing passes over a base vector `g`. */
  function InitFrom(g: State, key: seq<Word>): (s: State)
    requires key != []
    ensures s[0] == TWO31
  {
    var steps := KeySteps(key);
    FinalPass(KeyPass(g, Addends(key, steps)), steps, |g| - 1)[0 := TWO31]
  }

  function InitByArray(key: seq<Word>): (s: State)
    requires key != []
    ensures s[0] == TWO31
  {
    InitFrom(InitGenrand(BASE_SEED), key)
  }

  // ----- integer seeds

  /** The base-2^32 digits of `v`, low digit first; 0 has the one digit 0. */
  function Key(v: nat): (key: seq<Word>)
    ensures key != []
  {
    if v < TWO32 then [v] else [v % TWO32] + Key(v / TWO32)
  }

  function Value(key: seq<Word>): nat {
    if key == [] then 0 else key[0] + TWO32 * Value(key[1..])
  }

  lemma {:induction false} KeyValue(v: nat)
    ensures Value(Key(v)) == v
    ensures |Key(v)| > 1 ==> Key(v)[|Key(v)| - 1] != 0
  {
    if v < TWO32 {
      assert Key(v)[1..] == [];
      assert Value(Key(v)[1..]) == 0;
    } else {
      KeyValue(v / TWO32);
      assert Key(v)[1..] == Key(v / TWO32);
    }
  }

  function Magnitude(n: int): (m: nat)
    ensures m == n || m + n == 0
  {
    if n < 0 then -n else n
  }

  function SeedState(n: int): (s: State)
    ensures s[0] == TWO31
  {
    InitByArray(Key(Magnitude(n)))
  }

  /** Whatever the seed, the run never reaches the state that would output zeros for ever. */
  lemma {:induction false} SeededNeverCollapses(n: int, k: nat)
    ensures !ZeroWindow(SeedState(n), k)
  {
    NeverCollapses(SeedState(n), k);
    assert X(SeedState(n), 0) == TWO31;
  }

  // ----- which keys collide

  /** Agreement on every word but word 0. */
  ghost predicate SameTail(m: State, m': State) {
    forall i :: 1 <= i < N ==> m[i] == m'[i]
  }

  /** A step loses nothing outside word 0, as long as word 0 is known when it is read. */
  lemma {:induction false} StepBack(m: State, m': State, i: nat, multiplier: Word, addend: int)
    requires 1 <= i < N
    requires SameTail(Step(m, i, multiplier, addend), Step(m', i, multiplier, addend))
    requires i == 1 ==> m[0] == m[N - 1] && m'[0] == m'[N - 1]
    ensures SameTail(m, m')
  {
    var n, n' := Step(m, i, multiplier, addend), Step(m', i, multiplier, addend);
    forall j | 1 <= j < N && j != i
      ensures m[j] == m'[j]
    {
      assert n[j] == n'[j];
    }
    assert m[i - 1] == m'[i - 1];
    assert n[i] == n'[i];
    MixedInjective(m[i], m'[i], m[i - 1], multiplier, addend);
  }

  lemma {:induction false} MixedInjective(was: Word, was': Word, prev: Word, multiplier: Word, addend: int)
    requires Mixed(was, prev, multiplier, addend) == Mixed(was', prev, multiplier, addend)
    ensures was == was'
  {
    var f := ToWord(Scramble(prev) * multiplier);
    SumInjective(XorW(was, f), XorW(was', f), addend);
    XorInjective(was, was', f);
  }

  lemma {:induction false} SumInjective(a: Word, b: Word, x: int)
    requires ToWord(a + x) == ToWord(b + x)
    ensures a == b
  {
    var q, q' := (a + x) / TWO32, (b + x) / TWO32;
    assert a - b == TWO32 * (q - q');
  }

  lemma {:induction false} FinalPassBack(m: State, m': State, start: nat, n: nat)
    requires IndexAt(start) != 1
    ensures SameTail(FinalPass(m, start, n), FinalPass(m', start, n)) ==> SameTail(m, m')
    decreases n
  {
    if n > 0 && SameTail(FinalPass(m, start, n), FinalPass(m', start, n)) {
      FinalStepBack(m, m', start, n - 1);
      FinalPassBack(m, m', start, n - 1);
    }
  }

  lemma {:induction false} FinalStepBack(m: State, m': State, start: nat, n: nat)
    requires IndexAt(start) != 1
    requires SameTail(FinalPass(m, start, n + 1), FinalPass(m', start, n + 1))
    ensures SameTail(FinalPass(m, start, n), FinalPass(m', start, n))
  {
    var i: int := IndexAt(start + n);
    var f, f' := FinalPass(m, start, n), FinalPass(m', start, n);
    if i == 1 {
      WrappedWord(m, start, n);
      WrappedWord(m', start, n);
    }
    assert FinalPass(m, start, n + 1) == Step(f, i, FINAL_MULTIPLIER, -i);
    assert FinalPass(m', start, n + 1) == Step(f', i, FINAL_MULTIPLIER, -i);
    StepBack(f, f', i, FINAL_MULTIPLIER, -i);
  }

  /** When the pass comes round to word 1, word 0 has just been given the value of the last word. */
  lemma {:induction false} WrappedWord(m: State, start: nat, n: nat)
    requires IndexAt(start) != 1 && IndexAt(start + n) == 1
    ensures FinalPass(m, start, n)[0] == FinalPass(m, start, n)[N - 1]
  {
    assert n > 0;
    IndexNext(start + n - 1);
  }

  /** After `t` <= 622 key steps, words 1 to `t` carry their mixed value and the rest are untouched. */
  lemma {:induction false} FirstRound(g: State, a: seq<Word>)
    requires |a| <= N - 2
    ensures var m := KeyPass(g, a);
      && m[0] == g[0]
      && (forall i :: |a| < i < N ==> m[i] == g[i])
      && (forall i :: 1 <= i <= |a| ==> m[i] == Mixed(g[i], m[i - 1], KEY_MULTIPLIER, a[i - 1]))
    decreases |a|
  {
    if a != [] {
      var t := |a| - 1;
      FirstRound(g, a[..t]);
      ModSmall(t, N - 1);
      StepKeeps(KeyPass(g, a[..t]), t + 1, a[t]);
    }
  }

  /** Away from the last word, a key step changes one word. */
  lemma {:induction false} StepKeeps(m: State, i: nat, x: Word)
    requires 1 <= i < N - 1
    ensures var m' := Step(m, i, KEY_MULTIPLIER, x);
      && m'[i] == Mixed(m[i], m[i - 1], KEY_MULTIPLIER, x)
      && forall k :: 0 <= k < N && k != i ==> m'[k] == m[k]
  {
  }

  lemma {:induction false} KeyPassSnoc(g: State, a: seq<Word>, w: Word)
    ensures KeyPass(g, a + [w]) == Step(KeyPass(g, a), IndexAt(|a|), KEY_MULTIPLIER, w)
  {
    assert (a + [w])[..|a|] == a;
  }

  /** The state after a whole round and one more step, in terms of the addends. */
  lemma {:induction false} KeyPassWords(g: State, a: seq<Word>)
    requires |a| == N
    ensures var m := KeyPass(g, a);
      forall i :: 3 <= i < N ==> m[i] == Mixed(g[i], m[i - 1], KEY_MULTIPLIER, a[i - 1])
  {
    var a', x, y := a[..N - 2], a[N - 2], a[N - 1];
    FirstRound(g, a');
    KeyPassSnoc(g, a', x);
    KeyPassSnoc(g, a' + [x], y);
    assert a == a' + [x] + [y];
    RoundAndStep(KeyPass(g, a'), g, a, x, y);
  }

  lemma {:induction false} RoundAndStep(m: State, g: State, a: seq<Word>, x: Word, y: Word)
    requires |a| == N && a[N - 2] == x && m[N - 1] == g[N - 1]
    requires forall i :: 1 <= i < N - 1 ==> m[i] == Mixed(g[i], m[i - 1], KEY_MULTIPLIER, a[i - 1])
    ensures var m' := Step(Step(m, IndexAt(N - 2), KEY_MULTIPLIER, x), IndexAt(N - 1), KEY_MULTIPLIER, y);
      forall i :: 3 <= i < N ==> m'[i] == Mixed(g[i], m'[i - 1], KEY_MULTIPLIER, a[i - 1])
  {
    assert IndexAt(N - 2) == N - 1 && IndexAt(N - 1) == 1;
  }

  lemma {:induction false} KeyPassBack(g: State, a: seq<Word>, b: seq<Word>)
    requires |a| == |b| == N
    ensures SameTail(KeyPass(g, a), KeyPass(g, b)) ==> forall t :: 2 <= t < N - 1 ==> a[t] == b[t]
  {
    KeyPassWords(g, a);
    KeyPassWords(g, b);
    forall t | 2 <= t < N - 1 && SameTail(KeyPass(g, a), KeyPass(g, b))
      ensures a[t] == b[t]
    {
      AddendBack(g[t + 1], KeyPass(g, a)[t], a[t], b[t]);
      assert KeyPass(g, a)[t + 1] == KeyPass(g, b)[t + 1];
    }
  }

  lemma {:induction false} AddendBack(was: Word, prev: Word, x: Word, y: Word)
    requires Mixed(was, prev, KEY_MULTIPLIER, x) == Mixed(was, prev, KEY_MULTIPLIER, y)
    ensures x == y
  {
    SumInjective(x, y, XorW(was, ToWord(Scramble(prev) * KEY_MULTIPLIER)));
  }

  ghost predicate SameAddends(key: seq<Word>, key': seq<Word>)
    requires key != [] && key' != []
  {
    forall t: nat :: Addend(key, t) == Addend(key', t)
  }

  lemma {:induction false} AddendPeriod(key: seq<Word>, t: nat, n: nat)
    requires key != []
    ensures Addend(key, t + n * |key|) == Addend(key, t)
    decreases n
  {
    if n > 0 {
      var d := |key|;
      AddendPeriod(key, t, n - 1);
      var u := t + (n - 1) * d;
      assert t + n * d == u + d;
      DivUnique(u + d, d, u / d + 1, u % d);
    } else {
      assert t + 0 * |key| == t;
    }
  }

  /** The 621 steps whose addends the state gives back cover both keys, one after the other or one over the other. */
  predicate Covered(d: nat, d': nat) {
    d >= 1 && d' >= 1 && (d + d' <= N - 3 || d == d' <= N - 3)
  }

  lemma {:induction false} SpreadUp(key: seq<Word>, key': seq<Word>, t: nat)
    requires Covered(|key|, |key'|) && t >= 2
    requires forall t :: 2 <= t < N - 1 ==> Addend(key, t) == Addend(key', t)
    ensures Addend(key, t) == Addend(key', t)
    decreases t
  {
    var d, d' := |key|, |key'|;
    if t >= N - 1 {
      AddendPeriod(key, t - d, 1);
      AddendPeriod(key', t - d', 1);
      SpreadUp(key, key', t - d);
      if d != d' {
        // key: t, t-d; both: t-d; key': t-d, t-d-d'; both: t-d-d'; key: t-d-d', t-d'; both: t-d'; key': t-d', t
        AddendPeriod(key', t - d - d', 1);
        AddendPeriod(key, t - d - d', 1);
        SpreadUp(key, key', t - d - d');
        SpreadUp(key, key', t - d');
      }
    }
  }

  /** Agreement from step 2 to step 622 of two cyclic keys is agreement everywhere. */
  lemma {:induction false} AddendsSpread(key: seq<Word>, key': seq<Word>, t: nat)
    requires Covered(|key|, |key'|)
    requires forall t :: 2 <= t < N - 1 ==> Addend(key, t) == Addend(key', t)
    ensures Addend(key, t) == Addend(key', t)
  {
    var d, d' := |key|, |key'|;
    if t >= 2 {
      SpreadUp(key, key', t);
    } else {
      AddendPeriod(key, t, 2);
      AddendPeriod(key', t + 2 * d, 2);
      AddendPeriod(key, t + 2 * d', 2);
      AddendPeriod(key', t, 2);
      assert t + 2 * d + 2 * d' == t + 2 * d' + 2 * d;
      SpreadUp(key, key', t + 2 * d);
      SpreadUp(key, key', t + 2 * d');
      SpreadUp(key, key', t + 2 * d + 2 * d');
    }
  }

  lemma {:induction false} InitFromBack(g: State, key: seq<Word>, key': seq<Word>)
    requires Covered(|key|, |key'|)
    ensures InitFrom(g, key) == InitFrom(g, key') ==> forall t :: 2 <= t < N - 1 ==> Addend(key, t) == Addend(key', t)
  {
    var a, a' := Addends(key, |g|), Addends(key', |g|);
    var m, m' := KeyPass(g, a), KeyPass(g, a');
    var f, f' := FinalPass(m, |g|, |g| - 1), FinalPass(m', |g|, |g| - 1);
    SameButFirst(f, f', TWO31);
    FinalPassBack(m, m', |g|, |g| - 1);
    KeyPassBack(g, a, a');
  }

  lemma {:induction false} SameButFirst(f: State, f': State, w: Word)
    ensures f[0 := w] == f'[0 := w] ==> SameTail(f, f')
  {
    forall i | 1 <= i < N && f[0 := w] == f'[0 := w]
      ensures f[i] == f'[i]
    {
      assert f[i] == f[0 := w][i] && f'[i] == f'[0 := w][i];
    }
  }

  /**
   * Two keys, together of at most 621 words or both of one length up to it, lead to one state if and only if they
   * add the same at every step.
   */
  lemma {:induction false} SameStateExactly(g: State, key: seq<Word>, key': seq<Word>)
    requires Covered(|key|, |key'|)
    ensures InitFrom(g, key) == InitFrom(g, key') <==> SameAddends(key, key')
  {
    if SameAddends(key, key') {
      assert Addends(key, |g|) == Addends(key', |g|);
    }
    if InitFrom(g, key) == InitFrom(g, key') {
      InitFromBack(g, key, key');
      forall t: nat
        ensures Addend(key, t) == Addend(key', t)
      {
        AddendsSpread(key, key', t);
      }
    }
  }

  /** All outputs agree: those of the words from 624 on. */
  ghost predicate SameOutputs(s: State, t: State) {
    forall k: nat :: k >= N ==> Temper(X(s, k)) == Temper(X(t, k))
  }

  /** The first 624 outputs already give the state back, since every seeded state has the same word 0. */
  lemma {:induction false} SameOutputsExactly(s: State, t: State)
    requires s[0] == t[0]
    ensures SameOutputs(s, t) <==> s == t
  {
    if SameOutputs(s, t) {
      forall k: nat | N <= k < 2 * N
        ensures X(s, k) == X(t, k)
      {
        assert Temper(X(s, k)) == Temper(X(t, k));
        TemperBijective(X(s, k));
        TemperBijective(X(t, k));
      }
      SameFutureSameState(s, t);
      assert s == [s[0]] + s[1..] && t == [t[0]] + t[1..];
    }
  }

  /** Two seeds with such keys give the same outputs if and only if their keys add the same. */
  lemma {:induction false} SameSeedExactly(n: int, n': int)
    requires Covered(|Key(Magnitude(n))|, |Key(Magnitude(n'))|)
    ensures SameOutputs(SeedState(n), SeedState(n')) <==> SameAddends(Key(Magnitude(n)), Key(Magnitude(n')))
  {
    SameOutputsExactly(SeedState(n), SeedState(n'));
    SameStateExactly(InitGenrand(BASE_SEED), Key(Magnitude(n)), Key(Magnitude(n')));
  }

  /** The seed `n` whose two-word key adds, at every step, what the one-word key of `c` adds. */
  function Twin(c: Word): nat {
    c + TWO32 * ((c - 1) % TWO32)
  }

  predicate Twins(a: nat, b: nat) {
    a < TWO32 && b == Twin(a)
  }

  /**
   * Seeds of magnitude below 2^64 give the same stream if and only if they differ in sign at most, or one of them
   * is, up to sign, the two-word twin of the other's single word.
   */
  lemma {:induction false} SeedCollisions(n: int, n': int)
    requires Magnitude(n) < TWO32 * TWO32 && Magnitude(n') < TWO32 * TWO32
    ensures var a, b := Magnitude(n), Magnitude(n');
      SameOutputs(SeedState(n), SeedState(n')) <==> a == b || Twins(a, b) || Twins(b, a)
  {
    SignIgnored(n);
    SignIgnored(n');
    NaturalCollisions(Magnitude(n), Magnitude(n'));
  }

  lemma {:induction false} SignIgnored(n: int)
    ensures SeedState(n) == SeedState(Magnitude(n))
  {
  }

  lemma {:induction false} SameOutputsSymmetric(s: State, t: State)
    ensures SameOutputs(s, t) <==> SameOutputs(t, s)
  {
  }

  lemma {:induction false} NaturalCollisions(a: nat, b: nat)
    requires a < TWO32 * TWO32 && b < TWO32 * TWO32
    ensures SameOutputs(SeedState(a), SeedState(b)) <==> a == b || Twins(a, b) || Twins(b, a)
  {
    if a < b {
      TwinOfLess(b, a);
      UnsignedCollisions(a, b);
    } else if b < a {
      TwinOfLess(a, b);
      UnsignedCollisions(b, a);
      SameOutputsSymmetric(SeedState(a), SeedState(b));
    }
  }

  lemma {:induction false} TwinOfLess(a: nat, b: nat)
    requires b < a
    ensures !Twins(a, b)
  {
  }

  lemma {:induction false} UnsignedCollisions(n: nat, n': nat)
    requires n < n' < TWO32 * TWO32
    ensures SameOutputs(SeedState(n), SeedState(n')) <==> Twins(n, n')
  {
    KeyWords(n);
    KeyWords(n');
    SameSeedExactly(n, n');
    TwinKeys(n, n');
  }

  lemma {:induction false} TwinKeys(n: nat, n': nat)
    requires n < n' && n / TWO32 < TWO32 && n' / TWO32 < TWO32
    ensures SameAddends(ShortKey(n % TWO32, n / TWO32), ShortKey(n' % TWO32, n' / TWO32))
       <==> n < TWO32 && n' == Twin(n)
  {
    var a, b, a', b' := n % TWO32, n / TWO32, n' % TWO32, n' / TWO32;
    KeyCollisions(a, b, a', b');
    assert n == a + TWO32 * b && n' == a' + TWO32 * b';
  }

  function ShortKey(a: Word, b: Word): seq<Word> {
    if b == 0 then [a] else [a, b]
  }

  lemma {:induction false} KeyCollisions(a: Word, b: Word, a': Word, b': Word)
    ensures SameAddends(ShortKey(a, b), ShortKey(a', b'))
       <==> a == a' && (b == b' || (b == 0 && b' == (a - 1) % TWO32) || (b' == 0 && b == (a - 1) % TWO32))
  {
    if b == 0 && b' == 0 {
      assert Addend([a], 0) == a && Addend([a'], 0) == a';
    } else if b == 0 {
      OneAndTwoWords(a, a', b');
    } else if b' == 0 {
      OneAndTwoWords(a', a, b);
    } else {
      TwoWords(a, b, a', b');
    }
  }

  lemma {:induction false} OneAndTwoWords(c: Word, a: Word, b: Word)
    ensures SameAddends([c], [a, b]) == SameAddends([a, b], [c])
    ensures SameAddends([c], [a, b]) <==> a == c && b == (c - 1) % TWO32
  {
    assert Addend([c], 0) == c && Addend([a, b], 0) == a;
    assert Addend([c], 1) == c && Addend([a, b], 1) == ToWord(b + 1);
    if a == c && b == (c - 1) % TWO32 {
      forall t: nat
        ensures Addend([c], t) == Addend([a, b], t)
      {
        assert t % 1 == 0;
      }
    }
  }

  lemma {:induction false} TwoWords(a: Word, b: Word, a': Word, b': Word)
    ensures SameAddends([a, b], [a', b']) <==> a == a' && b == b'
  {
    assert Addend([a, b], 0) == a && Addend([a', b'], 0) == a';
    assert Addend([a, b], 1) == ToWord(b + 1) && Addend([a', b'], 1) == ToWord(b' + 1);
  }

  lemma {:induction false} KeyWords(n: nat)
    requires n < TWO32 * TWO32
    ensures n / TWO32 < TWO32 && Key(Magnitude(n)) == ShortKey(n % TWO32, n / TWO32)
  {
  }

  /** For instance seeds 2 and 4294967298. */
  lemma {:induction false} SeedCollisionExample()
    ensures SameOutputs(SeedState(2), SeedState(4294967298))
  {
    SeedCollisions(2, 4294967298);
  }
}
