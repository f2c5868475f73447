/**
 * Why rejection sampling on this generator always ends: in every run, from every state and after every
 * point, a tempered word with bit 31 clear turns up again.
 *
 * The stream x is the difference of another stream: summing 227 consecutive words and undoing `A` gives a
 * stream z with z[k] ^ z[k+1] == x[k]. The construction is linear and commutes with shifting, so it can be
 * repeated; 2^e repetitions give a z with z[k] ^ z[k + 2^e] == x[k]. If bit 31 of every output from some
 * point on were set, the matching bit of z would flip every 2^e words. The state space is finite, so x and
 * with it every z has a period; choosing 2^e as the largest power of two that divides the period makes the
 * bit flip an odd number of times over a stretch that must leave it unchanged.
 */
module Liveness {
  import opened Bits
  import opened Recurrence
  import opened Tempering

  /** The stream summed `j` times over; `j` == 0 is the stream itself. */
  ghost function Z(s: State, j: nat, k: nat): Word
    decreases j, 0
  {
    if j == 0 then X(s, k)
    else XorW(AInverse(Run(s, j - 1, k + M, N - M)), Lower(Z(s, j - 1, k)))
  }

  /** The exclusive or of `len` consecutive words starting at `p`. */
  ghost function Run(s: State, j: nat, p: nat, len: nat): Word
    decreases j, len + 1
  {
    if len == 0 then 0 else XorW(Run(s, j, p, len - 1), Z(s, j, p + len - 1))
  }

  lemma {:induction false} RunDifference(s: State, j: nat, p: nat, len: nat)
    ensures XorW(Run(s, j, p, len), Run(s, j, p + 1, len)) == XorW(Z(s, j, p), Z(s, j, p + len))
  {
    if len == 0 {
      XorSelf(Z(s, j, p));
      XorSelf(0);
    } else {
      var a, b, c := Z(s, j, p), Z(s, j, p + len - 1), Z(s, j, p + len);
      RunDifference(s, j, p, len - 1);
      XorSwap(Run(s, j, p, len - 1), b, Run(s, j, p + 1, len - 1), c);
      assert p + 1 + len - 1 == p + len;
      XorChain(a, b, c);
    }
  }

  lemma {:induction false} SummedDifference(s: State, j: nat, k: nat)
    ensures XorW(Z(s, j + 1, k), Z(s, j + 1, k + 1))
         == XorW(AInverse(XorW(Run(s, j, k + M, N - M), Run(s, j, k + M + 1, N - M))),
                 XorW(Lower(Z(s, j, k)), Lower(Z(s, j, k + 1))))
  {
    var r, r', l, l' := Run(s, j, k + M, N - M), Run(s, j, k + M + 1, N - M), Lower(Z(s, j, k)), Lower(Z(s, j, k + 1));
    assert k + 1 + M == k + M + 1;
    XorSwap(AInverse(r), l, AInverse(r'), l');
    AInverseXor(r, r');
  }

  lemma {:induction false} Rejoined(x: Word, y: Word)
    ensures XorW(Upper(x) + Lower(y), XorW(Lower(x), Lower(y))) == x
  {
    UpperLower(x, y);
    UpperLower(x, x);
    ChainBack(Upper(x), Lower(y), Lower(x));
  }

  lemma {:induction false} ChainBack(a: Word, b: Word, c: Word)
    ensures XorW(XorW(a, b), XorW(c, b)) == XorW(a, c)
  {
    XorComm(c, b);
    XorChain(a, b, c);
  }

  lemma {:induction false} TelescopesOnce(s: State, k: nat)
    ensures XorW(Z(s, 1, k), Z(s, 1, k + 1)) == Z(s, 0, k)
  {
    SummedDifference(s, 0, k);
    RunDifference(s, 0, k + M, N - M);
    TwistBack(s, k);
    Rejoined(X(s, k), X(s, k + 1));
  }

  /** Each summed stream's differences are the stream it was summed from. */
  lemma {:induction false} Telescopes(s: State, j: nat, k: nat)
    ensures XorW(Z(s, j + 1, k), Z(s, j + 1, k + 1)) == Z(s, j, k)
    decreases j, 0
  {
    if j == 0 {
      TelescopesOnce(s, k);
    } else {
      SummedDifference(s, j, k);
      Telescopes(s, j - 1, k);
      LowerXor(Z(s, j, k), Z(s, j, k + 1));
      RunTelescopes(s, j - 1, k + M, N - M);
    }
  }

  lemma {:induction false} RunTelescopes(s: State, j: nat, p: nat, len: nat)
    ensures XorW(Run(s, j + 1, p, len), Run(s, j + 1, p + 1, len)) == Run(s, j, p, len)
    decreases j, len + 1
  {
    if len == 0 {
      XorSelf(0);
    } else {
      var last := p + len - 1;
      RunTelescopes(s, j, p, len - 1);
      Telescopes(s, j, last);
      assert p + 1 + len - 1 == last + 1;
      RunLast(s, j, p, len);
      RunLast(s, j + 1, p, len);
      RunLast(s, j + 1, p + 1, len);
      XorSwap(Run(s, j + 1, p, len - 1), Z(s, j + 1, last), Run(s, j + 1, p + 1, len - 1), Z(s, j + 1, last + 1));
    }
  }

  lemma {:induction false} RunLast(s: State, j: nat, p: nat, len: nat)
    requires len > 0
    ensures Run(s, j, p, len) == XorW(Run(s, j, p, len - 1), Z(s, j, p + len - 1))
  {
  }

  /** 2^e sums make differences over a distance of 2^e. */
  lemma {:induction false} TelescopesFar(s: State, j: nat, e: nat, k: nat)
    ensures Far(s, j, Pow2(e), k)
    decreases e
  {
    if e == 0 {
      Telescopes(s, j, k);
    } else {
      var h := Pow2(e - 1);
      TelescopesFar(s, j, e - 1, k);
      TelescopesFar(s, j + h, e - 1, k);
      TelescopesFar(s, j + h, e - 1, k + h);
      FarDoubles(s, j, h, k);
    }
  }

  ghost predicate Far(s: State, j: nat, d: nat, k: nat) {
    XorW(Z(s, j + d, k), Z(s, j + d, k + d)) == Z(s, j, k)
  }

  lemma {:induction false} FarDoubles(s: State, j: nat, h: nat, k: nat)
    requires Far(s, j, h, k) && Far(s, j + h, h, k) && Far(s, j + h, h, k + h)
    ensures Far(s, j, 2 * h, k)
  {
    var j' := j + h + h;
    XorChain(Z(s, j', k), Z(s, j', k + h), Z(s, j', k + h + h));
  }

  // ----- every run is periodic from some point on

  lemma {:induction false} Pigeonhole(f: seq<nat>, bound: nat) returns (i: nat, j: nat)
    requires |f| > bound
    requires forall k :: 0 <= k < |f| ==> f[k] < bound
    ensures i < j < |f| && f[i] == f[j]
    decreases bound
  {
    var last := |f| - 1;
    if k :| 0 <= k < last && f[k] == f[last] {
      return k, last;
    }
    // rename value bound-1 to the last entry's value, which the rest no longer uses
    var g := seq(last, k requires 0 <= k < last => if f[k] == bound - 1 then f[last] else f[k]);
    i, j := Pigeonhole(g, bound - 1);
  }

  /** A state read as a number in base 2^32. */
  ghost function Code(s: seq<Word>): (c: nat)
    ensures c < Pow2(32 * |s|)
  {
    if s == [] then 0
    else
      var c := Code(s[1..]);
      CodeBound(s[0], c, 32 * |s[1..]|);
      s[0] + TWO32 * c
  }

  lemma {:induction false} CodeBound(w: Word, c: nat, n: nat)
    requires c < Pow2(n)
    ensures w + TWO32 * c < Pow2(32 + n)
  {
    Pow2Values();
    Pow2Add(32, n);
    assert TWO32 * (c + 1) <= TWO32 * Pow2(n);
  }

  lemma {:induction false} CodeInjective(s: seq<Word>, t: seq<Word>)
    requires |s| == |t| && Code(s) == Code(t)
    ensures s == t
  {
    if s != [] {
      assert s[0] == t[0] && Code(s[1..]) == Code(t[1..]);
      CodeInjective(s[1..], t[1..]);
      assert s == [s[0]] + s[1..] && t == [t[0]] + t[1..];
    }
  }

  lemma {:induction false} SameWindowPeriodic(s: State, i: nat, j: nat, k: nat)
    requires i <= j && i <= k && WindowAt(s, i) == WindowAt(s, j)
    ensures X(s, k) == X(s, k + (j - i))
  {
    forall q: nat | q < N
      ensures Agree(s, s, i, j, q)
    {
      assert WindowAt(s, i)[q] == WindowAt(s, j)[q];
    }
    SameWindowSameFuture(s, s, i, j, k - i);
    assert j + (k - i) == k + (j - i) && i + (k - i) == k;
  }

  lemma {:induction false} EventuallyPeriodic(s: State) returns (a: nat, period: nat)
    ensures period > 0
    ensures forall k :: k >= a ==> X(s, k) == X(s, k + period)
  {
    var i, j := SameStateTwice(s, |s|);
    a, period := i, j - i;
    forall k | k >= a
      ensures X(s, k) == X(s, k + period)
    {
      SameWindowPeriodic(s, i, j, k);
    }
  }

  lemma {:induction false} SameStateTwice(s: State, n: nat) returns (i: nat, j: nat)
    requires n == |s|
    ensures i < j && WindowAt(s, i) == WindowAt(s, j)
  {
    var bound := Pow2(32 * n);
    var codes := seq(bound + 1, k requires 0 <= k => Code(WindowAt(s, k)));
    i, j := Pigeonhole(codes, bound);
    CodeInjective(WindowAt(s, i), WindowAt(s, j));
  }

  lemma {:induction false} ZPeriodic(s: State, a: nat, period: nat, j: nat, k: nat)
    requires forall q :: q >= a ==> X(s, q) == X(s, q + period)
    requires k >= a
    ensures Z(s, j, k) == Z(s, j, k + period)
    decreases j, 0
  {
    if j > 0 {
      ZPeriodic(s, a, period, j - 1, k);
      RunPeriodic(s, a, period, j - 1, k + M, N - M);
      assert k + M + period == k + period + M;
    }
  }

  lemma {:induction false} RunPeriodic(s: State, a: nat, period: nat, j: nat, p: nat, len: nat)
    requires forall q :: q >= a ==> X(s, q) == X(s, q + period)
    requires p >= a
    ensures Run(s, j, p, len) == Run(s, j, p + period, len)
    decreases j, len + 1
  {
    if len > 0 {
      RunPeriodic(s, a, period, j, p, len - 1);
      ZPeriodic(s, a, period, j, p + len - 1);
      assert p + len - 1 + period == p + period + len - 1;
    }
  }

  lemma {:induction false} OddPart(n: nat) returns (e: nat, odd: nat)
    requires n > 0
    ensures n == odd * Pow2(e) && odd % 2 == 1
  {
    if n % 2 == 1 {
      e, odd := 0, n;
    } else {
      e, odd := OddPart(n / 2);
      e := e + 1;
      assert odd * Pow2(e) == 2 * (odd * Pow2(e - 1));
    }
  }

  // ----- the flipping bit

  ghost predicate OutputTop(w: Word) {
    TopBit(Temper(w))
  }

  lemma {:induction false} OutputTopXor(a: Word, b: Word)
    ensures OutputTop(XorW(a, b)) == (OutputTop(a) != OutputTop(b))
  {
    TemperXor(a, b);
    TopBitXor(Temper(a), Temper(b));
  }

  /** A bit that differs from itself `d` words later has changed after an odd number of such stretches. */
  lemma {:induction false} Alternates(b: nat -> bool, p: nat, d: nat, n: nat, end: nat)
    requires end == p + n * d
    requires forall k :: k >= p ==> b(k) != b(k + d)
    ensures (b(end) != b(p)) == (n % 2 == 1)
    decreases n
  {
    if n > 0 {
      OneLess(n, d);
      Alternates(b, p + d, d, n - 1, end);
    }
  }

  lemma {:induction false} OneLess(n: nat, d: nat)
    requires n > 0
    ensures n * d == d + (n - 1) * d
  {
  }

  lemma {:induction false} OneFlip(s: State, e: nat, d: nat, k: nat)
    requires d == Pow2(e) && OutputTop(X(s, k))
    ensures OutputTop(Z(s, d, k + d)) != OutputTop(Z(s, d, k))
  {
    TelescopesFar(s, 0, e, k);
    assert Z(s, 0, k) == X(s, k);
    OutputTopXor(Z(s, d, k), Z(s, d, k + d));
  }

  /** Infinitely often, from every state: an output below 2^31. */
  lemma {:induction false} TopBitClearsAgain(s: State, p: nat)
    ensures exists q :: q >= p && !TopBit(Temper(X(s, q)))
  {
    if forall q :: q >= p ==> TopBit(Temper(X(s, q))) {
      var a, period := EventuallyPeriodic(s);
      var start := if a > p then a else p;
      var e, odd := OddPart(period);
      forall k | k >= start
        ensures OutputTop(X(s, k))
      {
        assert TopBit(Temper(X(s, k)));
      }
      var d := Pow2(e);
      forall k: nat | k >= start
        ensures OutputTop(Z(s, d, k)) != OutputTop(Z(s, d, k + d))
      {
        OneFlip(s, e, d, k);
      }
      Alternates((k: nat) => OutputTop(Z(s, d, k)), start, d, odd, start + period);
      ZPeriodic(s, a, period, d, start);
      assert false;
    }
  }
}
