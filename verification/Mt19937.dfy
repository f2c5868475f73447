/** The MT19937 engine: a 624-word vector regenerated in place, and the draws made from it. */
module Mt19937Engine {
  import opened Bits
  import opened Recurrence
  import opened Tempering
  import opened Draws
  import opened Seeding
  import opened FisherYates

  class Mt19937 {
    const mt: array<Word>
    var mti: nat
    ghost var seedState: State  // the state the recurrence started from
    ghost var pos: nat          // the stream position of the next output

    /** The vector holds the 624 consecutive stream words that end where the unread ones do. */
    ghost predicate Valid()
      reads this, mt
    {
      && mt.Length == N
      && mti <= N + 1
      && pos >= Read()
      && mt[..] == WindowAt(seedState, pos - Read())
    }

    /** How many words of the vector have been read; a new engine counts as fully read. */
    ghost function Read(): nat
      reads this
    {
      if mti > N then N else mti
    }

    /** An engine that was never seeded: a zero vector, about to be regenerated. */
    constructor ()
      ensures Valid() && fresh(mt)
      ensures seedState == Blank() && pos == N
    {
      mt := new Word[N](i => 0);
      mti := N + 1;
      seedState := Blank();
      pos := N;
    }

    method InitGenrandInPlace(s: Word)
      requires mt.Length == N
      modifies this, mt
      ensures mt[..] == InitGenrand(s)
      ensures Valid() && seedState == InitGenrand(s) && pos == N && mti == N
    {
      FillGenrand(s, mt.Length);
      mti := N;
      assert mt[..mt.Length] == mt[..] && |mt[..]| == |Blank()|;
      Begin();
    }

    method FillGenrand(s: Word, n: nat)
      requires 0 < n <= mt.Length
      modifies mt
      ensures mt[..n] == GenrandPrefix(s, n)
    {
      mt[0] := s;
      for i := 1 to n
        invariant mt[..i] == GenrandPrefix(s, i)
      {
        GenrandNext(s, i, mt[..i]);
        var prev := mt[i - 1];
        mt[i] := ToWord(1812433253 * Scramble(prev) + i);
        assert mt[..i + 1] == mt[..i] + [mt[i]];
      }
    }

    /** One mixing step of `init_by_array`: word `i` is replaced, and word 0 too when `i` was the last. */
    method MixWord(i: nat, multiplier: Word, addend: int) returns (next: nat)
      requires mt.Length == N && 1 <= i < N
      modifies mt
      ensures mt[..] == Step(old(mt[..]), i, multiplier, addend)
      ensures next == if i + 1 >= N then 1 else i + 1
    {
      var prev := mt[i - 1];
      mt[i] := ToWord(XorW(mt[i], ToWord(Scramble(prev) * multiplier)) + addend);
      next := i + 1;
      if next >= N {
        mt[0] := mt[N - 1];
        next := 1;
      }
    }

    method KeyPassInPlace(key: seq<Word>, steps: nat) returns (i: nat)
      requires mt.Length == N && |key| > 0
      modifies mt
      ensures mt[..] == KeyMixed(old(mt[..]), key, steps)
      ensures i == IndexAt(steps)
    {
      ghost var g: State, done := old(mt[..]), 0;
      i := 1;
      var j := 0;
      var k := steps;
      while k > 0
        invariant done + k == steps
        invariant i == IndexAt(done) && j == Cyclic(done, |key|)
        invariant mt[..] == KeyMixed(g, key, done)
      {
        IndexNext(done);
        KeyMixedAt(g, key, done);
        i := MixWord(i, KEY_MULTIPLIER, key[j] + j);
        j := j + 1;
        if j >= |key| { j := 0; }
        k, done := k - 1, done + 1;
      }
    }

    method FinalPassInPlace(first: nat, words: nat, ghost steps: nat)
      requires mt.Length == N && first == IndexAt(steps)
      modifies mt
      ensures mt[..] == FinalPass(old(mt[..]), steps, words)
    {
      ghost var p: State, done := old(mt[..]), 0;
      var i := first;
      var k := words;
      while k > 0
        invariant done + k == words
        invariant i == IndexAt(steps + done)
        invariant mt[..] == FinalPass(p, steps, done)
      {
        FinalStep(p, steps, done);
        i := MixWord(i, FINAL_MULTIPLIER, -(i as int));
        k, done := k - 1, done + 1;
      }
    }

    method InitByArrayInPlace(key: seq<Word>)
      requires mt.Length == N && |key| > 0
      modifies this, mt
      ensures Valid() && seedState == InitByArray(key) && pos == N && mti == N
    {
      InitGenrandInPlace(BASE_SEED);
      MixInPlace(key, KeySteps(key), mt.Length - 1);
      MixedIsInitByArray(key, mt.Length - 1);
      Begin();
    }

    method MixInPlace(key: seq<Word>, steps: nat, words: nat)
      requires mt.Length == N && |key| > 0
      modifies mt
      ensures mt[..] == MixedByArray(old(mt[..]), key, steps, words)
    {
      var i := KeyPassInPlace(key, steps);
      FinalPassInPlace(i, words, steps);
      mt[0] := TWO31;
    }

    /** The vector as it now stands is what the stream starts from. */
    ghost method Begin()
      requires mt.Length == N && mti == N
      modifies this`seedState, this`pos
      ensures Valid() && seedState == mt[..] && pos == N
    {
      seedState := mt[..];
      pos := N;
    }

    static method KeyOf(n: nat) returns (key: seq<Word>)
      ensures key == Key(n)
    {
      var v := n;
      key := [];
      if v == 0 {
        key := [0];
      } else {
        while v > 0
          invariant key + (if v > 0 then Key(v) else []) == Key(n)
        {
          KeyFront(key, v);
          key := key + [v % TWO32];
          v := v / TWO32;
        }
      }
    }

    /** Seed from the base-2^32 digits of |n|. */
    method Seed(n: int)
      requires mt.Length == N
      modifies this, mt
      ensures Valid() && seedState == SeedState(n) && pos == N && mti == N
    {
      var key := KeyOf(Magnitude(n));
      InitByArrayInPlace(key);
    }

    // ----- output

    /** Put stream word `base + 624 + kk` in place `kk`, when the places before it are already regenerated. */
    method TwistWord(kk: nat, next: nat, far: nat, ghost s: State, ghost base: nat)
      requires mt.Length == N && kk < N
      requires mt[..] == HalfTurned(s, base, kk)
      requires next == if kk + 1 < N then kk + 1 else 0
      requires far == if kk + M < N then kk + M else kk + M - N
      modifies mt
      ensures mt[..] == HalfTurned(s, base, kk + 1)
    {
      RegenerateWord(s, base, kk);
      ghost var lo, hi := WindowAt(s, base), WindowAt(s, base + N);
      assert mt[kk] == lo[kk];
      assert mt[next] == if kk + 1 < N then lo[kk + 1] else hi[0];
      assert mt[far] == if kk + M < N then lo[kk + M] else hi[kk + M - N];
      mt[kk] := Twist(mt[kk], mt[next], mt[far]);
    }

    /** Replace the 624 words by the next 624 of the stream, reading words already replaced on the way. */
    method Regenerate(ghost s: State, ghost base: nat)
      requires mt.Length == N && mt[..] == WindowAt(s, base)
      modifies mt
      ensures mt[..] == WindowAt(s, base + N)
    {
      HalfTurnedEnds(s, base);
      for kk := 0 to N - M
        invariant mt[..] == HalfTurned(s, base, kk)
      {
        TwistWord(kk, kk + 1, kk + M, s, base);
      }
      for kk := N - M to N - 1
        invariant mt[..] == HalfTurned(s, base, kk)
      {
        TwistWord(kk, kk + 1, kk + M - N, s, base);
      }
      TwistWord(N - 1, 0, M - 1, s, base);
    }

    /** The n-th output after seeding is the tempered stream word 624 + n. */
    method GenrandUint32() returns (y: Word)
      requires Valid()
      modifies this, mt
      ensures Valid() && seedState == old(seedState)
      ensures y == Output(seedState, old(pos)) && pos == old(pos) + 1
    {
      if mti >= N {
        Regenerate(seedState, pos - N);
        mti := 0;
      }
      y := mt[mti];
      mti := mti + 1;
      pos := pos + 1;
      y := Temper(y);
    }

    /** Top 27 bits of one word over top 26 bits of the next, as a fraction of 2^53. */
    method RandomDouble() returns (r: real)
      requires Valid()
      modifies this, mt
      ensures Valid() && seedState == old(seedState) && pos == old(pos) + 2
      ensures 0.0 <= r < 1.0 && r * 9007199254740992.0
           == ((Output(seedState, old(pos)) / 32) * 67108864 + Output(seedState, old(pos) + 1) / 64) as real
    {
      var a := GenrandUint32();
      var b := GenrandUint32();
      r := Fraction53(a, b);
    }

    /** `k` random bits: the top of one word up to 32, whole words and the top of a last one beyond. */
    method GetRandBits(k: nat) returns (r: nat)
      requires Valid()
      modifies this, mt
      ensures Valid() && seedState == old(seedState)
      ensures k <= 32 ==> r == TakeBits(Output(seedState, old(pos)), k) && pos == old(pos) + 1
      ensures k > 32 ==> r == Wide(seedState, old(pos), k) && pos == old(pos) + Ceil32(k)
    {
      if k <= 32 {
        var y := GenrandUint32();
        return TakeBits(y, k);
      }
      r := GetWideBits(k);
    }

    /** One turn of the wide loop: the next output's field, above the bits read so far. */
    method OrNextWord(ghost p: nat, ghost k: nat, remaining: nat, r: nat, shift: nat) returns (r': nat)
      requires Valid() && remaining > 0
      modifies this, mt
      ensures Valid() && seedState == old(seedState) && pos == old(pos) + 1
      ensures WideSoFar(seedState, p, k, old(pos), remaining, r, shift)
          ==> WideSoFar(seedState, p, k, pos, if remaining > 32 then remaining - 32 else 0, r', shift + 32)
    {
      var take := if remaining < 32 then remaining else 32;
      var y := GenrandUint32();
      var word := TakeBits(y, take);
      r' := Or(r, Shl(word, shift));
      WideTurn(seedState, p, k, old(pos), remaining, r, shift, r');
    }

    method GetWideBits(k: nat) returns (r: nat)
      requires Valid() && k > 32
      modifies this, mt
      ensures Valid() && seedState == old(seedState)
      ensures r == Wide(seedState, old(pos), k) && pos == old(pos) + Ceil32(k)
    {
      r := 0;
      var shift, remaining := 0, k;
      ghost var s, p := seedState, pos;
      while remaining > 0
        invariant Valid() && seedState == s
        invariant WideSoFar(s, p, k, pos, remaining, r, shift)
      {
        r := OrNextWord(p, k, remaining, r, shift);
        shift := shift + 32;
        remaining := if remaining > 32 then remaining - 32 else 0;
      }
      WideDone(s, p, k, pos, r, shift);
    }

    static method CountBits(n: int) returns (k: nat)
      ensures k == LoopBits(n)
    {
      k := 0;
      var t := n;
      while t > 0
        invariant k + LoopBits(t) == LoopBits(n)
        decreases if t > 0 then t else 0
      {
        HalfIsLess(t);
        t := ToInt32(t) / 2; // t >>= 1
        k := k + 1;
      }
    }

    /** Rejection sampling. It ends in every run: some later word is always accepted. */
    method RandBelow(n: int) returns (r: int)
      requires Valid()
      modifies this, mt
      ensures Valid() && seedState == old(seedState)
      ensures (r, pos) == Below(seedState, old(pos), n)
      ensures n <= 0 ==> r == 0 && pos == old(pos)
      ensures n > 0 ==> KeepsFirst(seedState, old(pos), n, r, pos)
    {
      if n <= 0 { return 0; }
      var k := CountBits(n);
      LoopBitsBound(n);
      ghost var s, p, at := seedState, pos, pos;
      r := GetRandBits(k);
      Drawing(s, p, n, at, r, k);
      while r >= n
        invariant Valid() && seedState == s && pos == at + 1
        invariant p <= at <= FirstAccepted(s, p, n)
        invariant r == TakeBits(Output(s, at), k)
        invariant r < n ==> (r, at + 1) == Below(s, p, n)
        decreases FirstAccepted(s, p, n) - at
      {
        Drawing(s, p, n, at, r, k);
        at := pos;
        r := GetRandBits(k);
        Drawing(s, p, n, at, r, k);
      }
      BelowExactly(s, p, n, r, pos);
    }

    /** Settle place `i`: swap in one of the elements up to `i`. */
    method ShufflePlace<T>(x: array<T>, i: nat)
      requires Valid() && (x as object) != mt && i < x.Length
      modifies this, mt, x
      ensures Valid() && seedState == old(seedState)
      ensures var (j, next) := Below(seedState, old(pos), i + 1);
        pos == next && x[..] == Swap(old(x[..]), i, j)
    {
      var j := RandBelow(i + 1);
      var tmp := x[i];
      x[i] := x[j];
      x[j] := tmp;
    }

    /** Fisher-Yates in place: the stream makes the choices, and no other order could result from them. */
    method Shuffle<T>(x: array<T>)
      requires Valid() && (x as object) != mt
      modifies this, mt, x
      ensures Valid() && seedState == old(seedState)
      ensures (x[..], pos) == ShuffledBy(seedState, old(pos), old(x[..]))
      ensures multiset(x[..]) == multiset(old(x[..]))
    {
      ghost var s, p, x0 := seedState, pos, x[..];
      var i := x.Length - 1;
      ResumeAll(s, p, x0);
      while i >= 1
        invariant Valid() && seedState == s && -1 <= i < x.Length && (i == -1 ==> x.Length == 0)
        invariant Resume(s, pos, x[..], i + 1) == ShuffledBy(s, p, x0)
      {
        ghost var q, was := pos, x[..];
        ShufflePlace(x, i);
        ResumeStep(s, q, was, i, pos, x[..]);
        i := i - 1;
      }
      ResumeNone(s, pos, x[..], i + 1);
      ShuffledByMultiset(s, p, x0);
    }
  }

  /** The choices the stream makes from position `p` for a sequence of `n`, and the position after them. */
  ghost function Drawn(s: State, p: nat, n: nat): (r: (seq<nat>, nat))
    ensures Choices(n, r.0)
    decreases n
  {
    if n <= 1 then ([], p)
    else
      var (j, q) := Below(s, p, n);
      var (js, q') := Drawn(s, q, n - 1);
      ([j] + js, q')
  }

  /** Choice `k` is what the stream draws below `n - k` at `qs[k]`, and `qs[k + 1]` is where that draw ends. */
  ghost predicate DrawsAlong(s: State, n: nat, js: seq<nat>, qs: seq<nat>) {
    |qs| == |js| + 1 && forall k :: 0 <= k < |js| ==> (js[k], qs[k + 1]) == Below(s, qs[k], n - k)
  }

  lemma {:induction false} AlongCons(s: State, n: nat, p: nat, j: nat, js: seq<nat>, qs: seq<nat>)
    requires n > 0 && DrawsAlong(s, n - 1, js, qs) && (j, qs[0]) == Below(s, p, n)
    ensures DrawsAlong(s, n, [j] + js, [p] + qs)
  {
    forall k | 0 <= k < |[j] + js|
      ensures (([j] + js)[k], ([p] + qs)[k + 1]) == Below(s, ([p] + qs)[k], n - k)
    {
      if k > 0 {
        assert (js[k - 1], qs[k - 1 + 1]) == Below(s, qs[k - 1], n - 1 - (k - 1));
      }
    }
  }

  /** The choices are consecutive draws of the stream, each among as many places as are left. */
  lemma {:induction false} DrawnExactly(s: State, p: nat, n: nat) returns (qs: seq<nat>)
    ensures var (js, end) := Drawn(s, p, n);
      DrawsAlong(s, n, js, qs) && |js| == (if n == 0 then 0 else n - 1) && qs[0] == p && qs[|js|] == end
    decreases n
  {
    if n <= 1 {
      qs := [p];
    } else {
      var (j, q) := Below(s, p, n);
      var rest := DrawnExactly(s, q, n - 1);
      AlongCons(s, n, p, j, Drawn(s, q, n - 1).0, rest);
      qs := [p] + rest;
    }
  }

  ghost function ShuffledBy<T>(s: State, p: nat, x: seq<T>): (seq<T>, nat) {
    (Shuffled(x, Drawn(s, p, |x|).0), Drawn(s, p, |x|).1)
  }

  /** A shuffle that still has the first `k` places to order; the others are settled. */
  ghost function Resume<T>(s: State, p: nat, x: seq<T>, k: nat): (seq<T>, nat)
    requires k <= |x|
  {
    (ShuffledBy(s, p, x[..k]).0 + x[k..], ShuffledBy(s, p, x[..k]).1)
  }

  lemma {:induction false} ResumeAll<T>(s: State, p: nat, x: seq<T>)
    ensures Resume(s, p, x, |x|) == ShuffledBy(s, p, x)
  {
    var all, none := x[..|x|], x[|x|..];
    assert all == x && none == [];
    AppendNone(ShuffledBy(s, p, all).0);
  }

  lemma {:induction false} AppendNone<T>(r: seq<T>)
    ensures r + [] == r
  {
  }

  lemma {:induction false} ResumeNone<T>(s: State, p: nat, x: seq<T>, k: nat)
    requires k <= |x| && k <= 1
    ensures Resume(s, p, x, k) == (x, p)
  {
    assert x[..k] + x[k..] == x;
  }

  lemma {:induction false} ResumeStep<T>(s: State, p: nat, x: seq<T>, i: nat, q: nat, y: seq<T>)
    requires 1 <= i < |x| && Below(s, p, i + 1).1 == q && y == Swap(x, i, Below(s, p, i + 1).0)
    ensures Resume(s, q, y, i) == Resume(s, p, x, i + 1)
  {
    var d := Below(s, p, i + 1);
    var (js, q') := Drawn(s, q, i);
    assert Drawn(s, p, i + 1) == ([d.0] + js, q');
    ResumeSwap(x, i, d.0, js);
  }

  lemma {:induction false} ResumeSwap<T>(x: seq<T>, i: nat, j: nat, js: seq<nat>)
    requires 1 <= i < |x| && j <= i && Choices(i, js)
    ensures var y := Swap(x, i, j);
      Shuffled(y[..i], js) + y[i..] == Shuffled(x[..i + 1], [j] + js) + x[i + 1..]
  {
    var y, open := Swap(x, i, j), x[..i + 1];
    ShuffledStep(open, x[i + 1..], [j] + js);
    assert ([j] + js)[1..] == js;
    assert Swap(open, i, j)[..i] == y[..i];
    assert [Swap(open, i, j)[i]] + x[i + 1..] == y[i..];
  }

  lemma {:induction false} ShuffledByMultiset<T>(s: State, p: nat, x: seq<T>)
    ensures multiset(ShuffledBy(s, p, x).0) == multiset(x)
  {
    ShuffledMultiset(x, Drawn(s, p, |x|).0);
  }

  /** Reducing the addend first changes nothing. */
  lemma {:induction false} KeyWordSum(was: Word, prev: Word, word: Word, j: nat)
    ensures ToWord(XorW(was, ToWord(Scramble(prev) * KEY_MULTIPLIER)) + word + j)
         == Mixed(was, prev, KEY_MULTIPLIER, ToWord(word + j))
  {
    var x, y := XorW(was, ToWord(Scramble(prev) * KEY_MULTIPLIER)), word + j;
    assert y == TWO32 * (y / TWO32) + y % TWO32;
    AddMultiple(x + y % TWO32, y / TWO32);
  }

  lemma {:induction false} AddMultiple(a: int, q: int)
    ensures (a + TWO32 * q) % TWO32 == a % TWO32
  {
  }

  lemma {:induction false} StepSum(m: State, i: nat, x: nat)
    requires 1 <= i < N
    ensures Step(m, i, KEY_MULTIPLIER, x) == Step(m, i, KEY_MULTIPLIER, ToWord(x))
  {
    KeyWordSum(m[i], m[i - 1], 0, x);
  }

  function Fraction53(a: Word, b: Word): (r: real)
    ensures 0.0 <= r < 1.0
  {
    ((a / 32) * 0x400_0000 + b / 64) as real / 9007199254740992.0
  }

  function MixedByArray(g: State, key: seq<Word>, steps: nat, words: nat): State
    requires key != []
  {
    FinalPass(KeyMixed(g, key, steps), steps, words)[0 := TWO31]
  }

  lemma {:induction false} MixedIsInitByArray(key: seq<Word>, words: nat)
    requires key != [] && words == |Blank()| - 1
    ensures InitByArray(key) == MixedByArray(InitGenrand(BASE_SEED), key, KeySteps(key), words)
  {
    KeyMixedIsKeyPass(InitGenrand(BASE_SEED), key, KeySteps(key));
  }

  /** The draw at `at` is the result if it is below the bound, and otherwise there is a later one to come. */
  lemma {:induction false} Drawing(s: State, p: nat, n: nat, at: nat, r: nat, k: nat)
    requires n > 0 && k == LoopBits(n) && k <= 32 && p <= at && r == TakeBits(Output(s, at), k)
    ensures at <= FirstAccepted(s, p, n) ==>
            if r < n then (r, at + 1) == Below(s, p, n) else at < FirstAccepted(s, p, n)
  {
    LoopBitsBound(n);
    var q := FirstAccepted(s, p, n);
    assert Accepts(s, at, n) <==> r < n;
    if at <= q && r < n {
      assert at == q;
    } else {
      assert Accepts(s, q, n);
    }
  }

  lemma {:induction false} HalfIsLess(t: int)
    requires t > 0
    ensures ToInt32(t) / 2 < t
  {
    assert ToInt32(t) <= t;
  }

  /** The words read so far make up `r`, the low `shift` bits; the rest of the draw is still to be read at `pos`. */
  ghost predicate WideSoFar(s: State, p: nat, k: nat, pos: nat, remaining: nat, r: nat, shift: nat) {
    && r < Pow2(shift) && pos == p + Ceil32(k) - Ceil32(remaining)
    && r + Shl(Wide(s, pos, remaining), shift) == Wide(s, p, k)
  }

  lemma {:induction false} WideTurn(s: State, p: nat, k: nat, pos: nat, remaining: nat, r: nat, shift: nat, r': nat)
    requires remaining > 0
    requires r' == Or(r, Shl(TakeBits(Output(s, pos), if remaining < 32 then remaining else 32), shift))
    ensures WideSoFar(s, p, k, pos, remaining, r, shift)
        ==> WideSoFar(s, p, k, pos + 1, if remaining > 32 then remaining - 32 else 0, r', shift + 32)
  {
    if r < Pow2(shift) {
      WideStep(s, pos, remaining, r, shift);
    }
  }

  lemma {:induction false} WideDone(s: State, p: nat, k: nat, pos: nat, r: nat, shift: nat)
    ensures WideSoFar(s, p, k, pos, 0, r, shift) ==> r == Wide(s, p, k) && pos == p + Ceil32(k)
  {
    ShlIsMul(0, shift);
  }

  lemma {:induction false} FinalStep(p: State, steps: nat, n: nat)
    ensures IndexAt(steps + (n + 1)) == if IndexAt(steps + n) + 1 >= N then 1 else IndexAt(steps + n) + 1
    ensures FinalPass(p, steps, n + 1)
         == Step(FinalPass(p, steps, n), IndexAt(steps + n), FINAL_MULTIPLIER, -(IndexAt(steps + n) as int))
  {
    IndexNext(steps + n);
    assert steps + n + 1 == steps + (n + 1);
  }

  lemma {:induction false} GenrandNext(seed: Word, i: nat, was: seq<Word>)
    requires i > 0 && was == GenrandPrefix(seed, i)
    ensures GenrandPrefix(seed, i + 1) == was + [ToWord(1812433253 * Scramble(was[i - 1]) + i)]
  {
  }

  /** A counter that starts at 0 and returns to it on reaching `n`. */
  function Cyclic(t: nat, n: nat): (c: nat)
    requires n > 0
    ensures c < n
    decreases t
  {
    if t == 0 then 0 else if Cyclic(t - 1, n) + 1 >= n then 0 else Cyclic(t - 1, n) + 1
  }

  lemma {:induction false} CyclicIsMod(t: nat, n: nat)
    requires n > 0
    ensures Cyclic(t, n) == t % n
  {
    if t == 0 {
      ModSmall(0, n);
    } else {
      CyclicIsMod(t - 1, n);
      ModNext(t - 1, n);
    }
  }

  /** The key pass by its number of steps. */
  function KeyMixed(m: State, key: seq<Word>, n: nat): State
    requires key != []
    decreases n
  {
    if n == 0 then m
    else
      var j := Cyclic(n - 1, |key|);
      Step(KeyMixed(m, key, n - 1), IndexAt(n - 1), KEY_MULTIPLIER, key[j] + j)
  }

  lemma {:induction false} KeyMixedIsKeyPass(m: State, key: seq<Word>, n: nat)
    requires key != []
    ensures KeyMixed(m, key, n) == KeyPass(m, Addends(key, n))
    decreases n
  {
    if n == 0 {
      KeyPassNone(m, Addends(key, 0));
    } else {
      KeyMixedIsKeyPass(m, key, n - 1);
      SameKeyStep(m, key, n - 1);
    }
  }

  lemma {:induction false} KeyPassNone(m: State, a: seq<Word>)
    requires |a| == 0
    ensures KeyPass(m, a) == m
  {
  }

  lemma {:induction false} SameKeyStep(g: State, key: seq<Word>, t: nat)
    requires key != []
    ensures KeyMixed(g, key, t) == KeyPass(g, Addends(key, t)) ==>
            KeyMixed(g, key, t + 1) == KeyPass(g, Addends(key, t + 1))
  {
    KeyMixedAt(g, key, t);
    KeyPassAt(g, key, t);
  }

  lemma {:induction false} KeyMixedAt(g: State, key: seq<Word>, t: nat)
    requires key != []
    ensures var j := Cyclic(t, |key|);
      KeyMixed(g, key, t + 1) == Step(KeyMixed(g, key, t), IndexAt(t), KEY_MULTIPLIER, key[j] + j)
  {
  }

  lemma {:induction false} KeyPassAt(g: State, key: seq<Word>, t: nat)
    requires key != []
    ensures var j := Cyclic(t, |key|);
      KeyPass(g, Addends(key, t + 1)) == Step(KeyPass(g, Addends(key, t)), IndexAt(t), KEY_MULTIPLIER, key[j] + j)
  {
    KeyPassReduced(g, key, t);
    StepSums(KeyPass(g, Addends(key, t)), key, t);
  }

  lemma {:induction false} StepSums(m: State, key: seq<Word>, t: nat)
    requires key != []
    ensures var j := Cyclic(t, |key|);
      Step(m, IndexAt(t), KEY_MULTIPLIER, key[j] + j) == Step(m, IndexAt(t), KEY_MULTIPLIER, ToWord(key[j] + j))
  {
    StepSum(m, IndexAt(t), key[Cyclic(t, |key|)] + Cyclic(t, |key|));
  }

  lemma {:induction false} KeyPassReduced(g: State, key: seq<Word>, t: nat)
    requires key != []
    ensures var j := Cyclic(t, |key|);
      KeyPass(g, Addends(key, t + 1))
      == Step(KeyPass(g, Addends(key, t)), IndexAt(t), KEY_MULTIPLIER, ToWord(key[j] + j))
  {
    AddendsNext(key, t);
    KeyPassLonger(g, Addends(key, t), t, ToWord(key[Cyclic(t, |key|)] + Cyclic(t, |key|)));
  }

  lemma {:induction false} AddendsNext(key: seq<Word>, t: nat)
    requires key != []
    ensures var j := Cyclic(t, |key|);
      Addends(key, t + 1) == Addends(key, t) + [ToWord(key[j] + j)]
  {
    CyclicIsMod(t, |key|);
  }

  lemma {:induction false} KeyPassLonger(g: State, a: seq<Word>, t: nat, w: Word)
    requires t == |a|
    ensures KeyPass(g, a + [w]) == Step(KeyPass(g, a), IndexAt(t), KEY_MULTIPLIER, w)
  {
    KeyPassSnoc(g, a, w);
  }

  lemma {:induction false} KeyFront(key: seq<Word>, v: nat)
    requires v > 0
    ensures key + Key(v) == key + [v % TWO32] + if v / TWO32 > 0 then Key(v / TWO32) else []
  {
  }

  /** A vector whose first `kk` words already belong to the next 624 of the stream. */
  ghost function HalfTurned(s: State, base: nat, kk: nat): seq<Word>
    requires kk <= N
  {
    WindowAt(s, base + N)[..kk] + WindowAt(s, base)[kk..]
  }

  lemma {:induction false} HalfTurnedEnds(s: State, base: nat)
    ensures HalfTurned(s, base, 0) == WindowAt(s, base) && HalfTurned(s, base, N) == WindowAt(s, base + N)
  {
  }

  /** The recurrence inside two consecutive windows of 624 words: what each regenerated word is made of. */
  lemma {:induction false} RegenerateWord(s: State, base: nat, kk: nat)
    requires kk < N
    ensures var lo, hi := WindowAt(s, base), WindowAt(s, base + N);
      hi[kk] == Twist(lo[kk], if kk + 1 < N then lo[kk + 1] else hi[0],
                      if kk + M < N then lo[kk + M] else hi[kk + M - N])
  {
    var lo, hi := WindowAt(s, base), WindowAt(s, base + N);
    var x1, xm := if kk + 1 < N then lo[kk + 1] else hi[0], if kk + M < N then lo[kk + M] else hi[kk + M - N];
    assert x1 == X(s, base + kk + 1) by {
      if kk + 1 < N { WindowWord(s, base, kk + 1); } else { WindowWord(s, base + N, 0); }
    }
    assert xm == X(s, base + kk + M) by {
      if kk + M < N { WindowWord(s, base, kk + M); } else { WindowWord(s, base + N, kk + M - N); }
    }
    assert lo[kk] == X(s, base + kk) by { WindowWord(s, base, kk); }
    assert hi[kk] == X(s, base + kk + N) by {
      WindowWord(s, base + N, kk);
      assert base + N + kk == base + kk + N;
    }
    NextWord(s, base + kk);
  }

  lemma {:induction false} WindowWord(s: State, k: nat, i: nat)
    requires i < N
    ensures WindowAt(s, k)[i] == X(s, k + i)
  {
  }
}
