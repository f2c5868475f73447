/** The linear recurrence behind MT19937, its tempering, and the period-free facts about both. */
module Recurrence {
  import opened Bits

  const N: nat := 624
  const M: nat := 397
  const MATRIX_A: Word := 0x9908b0df

  /** A generator state: the contents of the 624-word vector. */
  type State = s: seq<Word> | |s| == N witness seq(N, i => 0)

  // ----- one step

  /** `(y >>> 1) ^ ((y & 1) === 1 ? MATRIX_A : 0)` */
  function A(y: Word): Word {
    XorW(y / 2, if y % 2 == 1 then MATRIX_A else 0)
  }

  /** `z` with the twist's feedback removed; the feedback shows in bit 31. */
  function Unfed(z: Word): (u: Word)
    ensures u < TWO31
  {
    if TopBit(z) then
      TopBitXor(z, MATRIX_A);
      XorW(z, MATRIX_A)
    else z
  }

  function AInverse(z: Word): Word {
    2 * Unfed(z) + if TopBit(z) then 1 else 0
  }

  lemma {:induction false} AInverseA(y: Word)
    ensures AInverse(A(y)) == y
  {
    XorZero(y / 2);
    TopBitXor(y / 2, MATRIX_A);
    XorCancel(y / 2, MATRIX_A);
  }

  lemma {:induction false} UnfedXor(y: Word, z: Word)
    ensures Unfed(XorW(y, z)) == XorW(Unfed(y), Unfed(z))
  {
    TopBitXor(y, z);
    if TopBit(y) && TopBit(z) {
      XorSwap(y, MATRIX_A, z, MATRIX_A);
      XorSelf(MATRIX_A);
      XorZero(XorW(y, z));
    } else if TopBit(y) {
      XorAssoc(y, MATRIX_A, z);
      XorAssoc(y, z, MATRIX_A);
      XorComm(MATRIX_A, z);
    } else if TopBit(z) {
      XorAssoc(y, z, MATRIX_A);
    }
  }

  lemma {:induction false} AInverseXor(y: Word, z: Word)
    ensures AInverse(XorW(y, z)) == XorW(AInverse(y), AInverse(z))
  {
    var u, v := Unfed(y), Unfed(z);
    UnfedXor(y, z);
    TopBitXor(y, z);
    Doubled(u, v, if TopBit(y) then 1 else 0, if TopBit(z) then 1 else 0);
  }

  lemma {:induction false} Doubled(u: nat, v: nat, b: nat, c: nat)
    requires b < 2 && c < 2
    ensures Xor(2 * u + b, 2 * v + c) == 2 * Xor(u, v) + if b == c then 0 else 1
  {
    Parity(2 * u + b, u, b);
    Parity(2 * v + c, v, c);
    XorStep(2 * u + b, 2 * v + c);
    Parity(2 * Xor(u, v) + (if b == c then 0 else 1), Xor(u, v), if b == c then 0 else 1);
    SameHalves(Xor(2 * u + b, 2 * v + c), 2 * Xor(u, v) + if b == c then 0 else 1);
  }

  /** x[k+624] from x[k], x[k+1] and x[k+397]. */
  function Twist(x0: Word, x1: Word, xm: Word): Word {
    XorW(xm, A(Upper(x0) + Lower(x1)))
  }

  /** The infinite stream: the state's own words first, then the recurrence. */
  ghost function X(s: State, k: nat): Word
    decreases k
  {
    if k < N then s[k] else Twist(X(s, k - N), X(s, k - N + 1), X(s, k - N + M))
  }

  /** The 624 stream words from position `k` on. */
  ghost function WindowAt(s: State, k: nat): (w: State)
    ensures forall i :: 0 <= i < N ==> w[i] == X(s, k + i)
  {
    var w := seq<Word>(N, i requires 0 <= i => X(s, k + i));
    assert |w| == N;
    w
  }

  /** The stream read backwards one step: the bits of x[k] and x[k+1] that the step consumed. */
  lemma {:induction false} TwistBack(s: State, k: nat)
    ensures AInverse(XorW(X(s, k + M), X(s, k + N))) == Upper(X(s, k)) + Lower(X(s, k + 1))
  {
    NextWord(s, k);
    TwistUndone(X(s, k), X(s, k + 1), X(s, k + M));
  }

  lemma {:induction false} TwistUndone(x0: Word, x1: Word, xm: Word)
    ensures AInverse(XorW(xm, Twist(x0, x1, xm))) == Upper(x0) + Lower(x1)
  {
    var y := Upper(x0) + Lower(x1);
    XorCancel(A(y), xm);
    AInverseA(y);
  }

  // ----- which recurrence it is, bit by bit

  lemma {:induction false} ABit(y: Word, i: nat)
    requires i < 32
    ensures Bit(A(y), i) <==> Bit(y, i + 1) != (Bit(y, 0) && Bit(0x9908b0df, i))
  {
    var feedback: Word := if y % 2 == 1 then MATRIX_A else 0;
    BitXor(y / 2, feedback, i);
    BitZero(i);
    assert Bit(y, i + 1) == Bit(y / 2, i);
  }

  /** Bit 31 of one word above bits 30 to 0 of another. */
  lemma {:induction false} JoinBit(x0: Word, x1: Word, i: nat)
    ensures Bit(Upper(x0) + Lower(x1), i) <==> if i == 31 then Bit(x0, 31) else i < 31 && Bit(x1, i)
  {
    var u0, m: nat := if TopBit(x0) then 1 else 0, 31;
    UpperLower(x0, x1);
    UpperShifted(x0, m);
    BitXor(Upper(x0), Lower(x1), i);
    BitShl(u0, m, i);
    LowerBit(x1, i);
    if i >= m {
      SmallBit(u0, i - m);
    }
    TopIsBit(x0);
  }

  lemma {:induction false} SmallBit(u: nat, i: nat)
    requires u < 2
    ensures Bit(u, i) <==> u == 1 && i == 0
  {
    if i > 0 {
      BitZero(i - 1);
    }
  }

  lemma {:induction false} LowerBit(w: Word, i: nat)
    ensures Bit(Lower(w), i) <==> i < 31 && Bit(w, i)
  {
    var m := 31;
    Pow2Values();
    ShrIsDiv(w, m);
    if i < m {
      LowBitsBit(w, m, i);
    } else {
      BitBeyond(Lower(w), m, i);
    }
  }

  lemma {:induction false} LowBitsBit(n: nat, m: nat, i: nat)
    requires i < m
    ensures Bit(LowBits(n, m), i) <==> Bit(n, i)
    decreases m
  {
    Parity(LowBits(n, m), LowBits(n / 2, m - 1), n % 2);
    if i > 0 {
      LowBitsBit(n / 2, m - 1, i - 1);
    }
  }

  lemma {:induction false} TopIsBit(w: Word)
    ensures TopBit(w) <==> Bit(w, 31)
  {
    var m := 31;
    Pow2Values();
    ShrIsDiv(w, m);
    BitShr(w, m, 0);
    SmallBit(Shr(w, m), 0);
  }

  /**
   * Each bit of the word 624 places on: the word 397 places on, the word's own bit 31 and the next one's other
   * bits shifted by one, and the constant wherever the next word is odd.
   */
  lemma {:induction false} StreamBit(s: State, k: nat, i: nat)
    requires i < 32
    ensures var joined := if i + 1 == 31 then Bit(X(s, k), 31) else i + 1 < 31 && Bit(X(s, k + 1), i + 1);
      Bit(X(s, k + 624), i) <==> (Bit(X(s, k + 397), i) != joined) != (Bit(X(s, k + 1), 0) && Bit(0x9908b0df, i))
  {
    NextWord(s, k);
    TwistBit(X(s, k), X(s, k + 1), X(s, k + 397), i);
  }

  lemma {:induction false} TwistBit(x0: Word, x1: Word, xm: Word, i: nat)
    requires i < 32
    ensures var joined := if i + 1 == 31 then Bit(x0, 31) else i + 1 < 31 && Bit(x1, i + 1);
      Bit(Twist(x0, x1, xm), i) <==> (Bit(xm, i) != joined) != (Bit(x1, 0) && Bit(0x9908b0df, i))
  {
    var y: Word := Upper(x0) + Lower(x1);
    BitXor(xm, A(y), i);
    ABit(y, i);
    JoinBit(x0, x1, i + 1);
    JoinBit(x0, x1, 0);
  }

  /** The stream begins with the state. */
  lemma {:induction false} StreamStarts(s: State, k: nat)
    requires k < 624
    ensures X(s, k) == s[k]
  {
  }

  // ----- the 19937 significant bits

  /** The bits that decide the future, bit 31 of word k and all of the next 623 words, are zero. */
  ghost predicate ZeroWindow(s: State, k: nat) {
    !TopBit(X(s, k)) && forall i :: k < i < k + N ==> X(s, i) == 0
  }

  lemma {:induction false} ZeroWindowForward(s: State, k: nat)
    requires ZeroWindow(s, k)
    ensures ZeroWindow(s, k + 1)
  {
    assert X(s, k + 1) == 0 && X(s, k + M) == 0;
    assert X(s, k + N) == Twist(X(s, k), 0, 0);
    assert A(0) == XorW(0, 0) == 0;
  }

  lemma {:induction false} ZeroWindowBack(s: State, k: nat)
    requires ZeroWindow(s, k + 1)
    ensures ZeroWindow(s, k)
  {
    assert X(s, k + M) == 0 && X(s, k + N) == 0;
    TwistBack(s, k);
    assert XorW(0, 0) == 0 && AInverse(0) == 0;
  }

  /** No run ever falls into the all-zero state, and none ever leaves it. */
  lemma {:induction false} NeverCollapses(s: State, k: nat)
    ensures ZeroWindow(s, k) <==> ZeroWindow(s, 0)
  {
    if k > 0 {
      NeverCollapses(s, k - 1);
      if ZeroWindow(s, k) {
        ZeroWindowBack(s, k - 1);
      }
      if ZeroWindow(s, k - 1) {
        ZeroWindowForward(s, k - 1);
      }
    }
  }

  ghost predicate Agree(s: State, t: State, a: nat, b: nat, k: nat) {
    X(s, a + k) == X(t, b + k)
  }

  /** `624` consecutive words decide every later one. */
  lemma {:induction false} SameWindowSameFuture(s: State, t: State, a: nat, b: nat, k: nat)
    requires forall i: nat :: i < N ==> Agree(s, t, a, b, i)
    ensures Agree(s, t, a, b, k)
  {
    if k >= N {
      SameWindowSameFuture(s, t, a, b, k - N);
      SameWindowSameFuture(s, t, a, b, k - N + 1);
      SameWindowSameFuture(s, t, a, b, k - N + M);
      AgreeNext(s, t, a, b, k - N);
    }
  }

  lemma {:induction false} AgreeNext(s: State, t: State, a: nat, b: nat, k: nat)
    requires Agree(s, t, a, b, k) && Agree(s, t, a, b, k + 1) && Agree(s, t, a, b, k + M)
    ensures Agree(s, t, a, b, k + N)
  {
    NextWord(s, a + k);
    NextWord(t, b + k);
    assert a + (k + 1) == a + k + 1 && a + (k + M) == a + k + M && a + (k + N) == a + k + N;
    assert b + (k + 1) == b + k + 1 && b + (k + M) == b + k + M && b + (k + N) == b + k + N;
  }

  lemma {:induction false} NextWord(s: State, p: nat)
    ensures X(s, p + N) == Twist(X(s, p), X(s, p + 1), X(s, p + M))
  {
  }

  /** Read backwards: the words after the state give back all of it but 31 bits of word 0. */
  lemma {:induction false} SameFutureSameState(s: State, t: State)
    requires forall k: nat :: N <= k < 2 * N ==> X(s, k) == X(t, k)
    ensures TopBit(s[0]) == TopBit(t[0]) && s[1..] == t[1..]
  {
    SameFutureFrom(s, t, 0);
    forall i | 1 <= i < N
      ensures s[i] == t[i]
    {
      SameFutureFrom(s, t, i - 1);
      SameFutureFrom(s, t, i);
      UpperLower(s[i], s[i]);
      UpperLower(t[i], t[i]);
    }
  }

  lemma {:induction false} SameFutureFrom(s: State, t: State, k: nat)
    requires forall i: nat :: N <= i < 2 * N ==> X(s, i) == X(t, i)
    requires k < N
    ensures Upper(X(s, k)) == Upper(X(t, k)) && Lower(X(s, k + 1)) == Lower(X(t, k + 1))
    decreases N - k
  {
    if k + M < N {
      SameFutureFrom(s, t, k + M - 1);
      SameFutureFrom(s, t, k + M);
      UpperLower(X(s, k + M), X(s, k + M));
      UpperLower(X(t, k + M), X(t, k + M));
    }
    TwistBack(s, k);
    TwistBack(t, k);
    assert X(s, k + N) == X(t, k + N);
  }
}
