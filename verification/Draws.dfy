/** What a draw means: bit fields of output words, their exact counts, and rejection sampling. */
module Draws {
  import opened Bits
  import opened Recurrence
  import opened Tempering
  import Liveness

  ghost function Output(s: State, p: nat): Word {
    Temper(X(s, p))
  }

  // ----- the high bits of one word

  /** `word >>> (32 - k)`; JavaScript takes the shift count modulo 32, so k == 0 shifts by nothing. */
  function TakeBits(w: Word, k: nat): (r: Word)
    requires k <= 32
    ensures r == w / Pow2((32 - k) % 32)
  {
    ShrIsDiv(w, (32 - k) % 32);
    ShrBound(w, (32 - k) % 32);
    Shr(w, (32 - k) % 32)
  }

  function Interval(a: int, b: int): (s: set<int>)
    ensures forall w :: w in s <==> a <= w < b
    ensures a <= b ==> |s| == b - a
    decreases b - a
  {
    if a < b then Interval(a, b - 1) + {b - 1} else {}
  }

  /** The words whose top `k` bits read `r`. */
  function Preimage(k: nat, r: int): set<int>
    requires k <= 32
  {
    set w | 0 <= w < TWO32 && TakeBits(w, k) == r
  }

  lemma {:induction false} DivInterval(w: nat, d: nat, r: nat, lo: nat)
    requires d > 0 && lo == r * d
    ensures w / d == r <==> lo <= w < lo + d
  {
    if lo <= w < lo + d {
      DivUnique(w, d, r, w - lo);
    }
  }

  lemma {:induction false} PreimageInterval(k: nat, r: nat, d: nat, lo: nat)
    requires 1 <= k <= 32 && d == Pow2(32 - k) && lo == r * d
    ensures forall w :: w in Preimage(k, r) <==> lo <= w < lo + d && w < TWO32
  {
    forall w | 0 <= w < TWO32
      ensures TakeBits(w, k) == r <==> lo <= w < lo + d
    {
      TakeIsDiv(w, k, d);
      DivInterval(w, d, r, lo);
    }
  }

  lemma {:induction false} TakeIsDiv(w: Word, k: nat, d: nat)
    requires 1 <= k <= 32 && d == Pow2(32 - k)
    ensures TakeBits(w, k) == w / d
  {
    ModSmall(32 - k, 32);
  }

  /** Every value below 2^k is the top field of exactly 2^(32-k) words, and no other value is. */
  lemma {:induction false} FieldCount(k: nat, r: nat)
    requires 1 <= k <= 32
    ensures r < Pow2(k) ==> |Preimage(k, r)| == Pow2(32 - k)
    ensures r >= Pow2(k) ==> Preimage(k, r) == {}
  {
    var d, n := Pow2(32 - k), Pow2(k);
    FieldWidth(k);
    PreimageInterval(k, r, d, r * d);
    if r < n {
      TopInterval(r, d, n);
    } else {
      MulMono(n, r, d);
    }
    FieldElements(Preimage(k, r), r * d, d, r < n);
  }

  lemma {:induction false} FieldElements(ws: set<Word>, lo: nat, d: nat, inside: bool)
    requires forall w :: w in ws <==> lo <= w < lo + d && w < TWO32
    requires if inside then lo + d <= TWO32 else lo >= TWO32
    ensures if inside then |ws| == d else ws == {}
  {
    if inside {
      assert ws == Interval(lo, lo + d);
    }
  }

  lemma {:induction false} FieldWidth(k: nat)
    requires k <= 32
    ensures Pow2(32 - k) * Pow2(k) == Pow2(k) * Pow2(32 - k) == TWO32
  {
    Pow2Values();
    Pow2Add(32 - k, k);
  }

  lemma {:induction false} MulMono(a: nat, b: nat, d: nat)
    requires a <= b
    ensures a * d <= b * d
  {
  }

  lemma {:induction false} TopInterval(r: nat, d: nat, n: nat)
    requires r < n
    ensures r * d + d <= n * d
  {
    MulMono(r + 1, n, d);
  }

  /** `getrandbits(k)` stays below 2^k for every word exactly when k is at least 1. */
  lemma {:induction false} FieldRange(k: nat)
    requires k <= 32
    ensures (forall w: Word :: TakeBits(w, k) < Pow2(k)) <==> k >= 1
  {
    if k >= 1 {
      forall w: Word
        ensures TakeBits(w, k) < Pow2(k)
      {
        FieldCount(k, TakeBits(w, k));
        assert w in Preimage(k, TakeBits(w, k));
      }
    } else {
      assert TakeBits(1, 0) == 1 / Pow2(0) == 1;
    }
  }

  // ----- the bit-length loop of randbelow

  /** The number of binary digits of `n`. */
  function BitLength(n: nat): nat {
    if n == 0 then 0 else 1 + BitLength(n / 2)
  }

  lemma {:induction false} BitLengthBounds(n: nat)
    requires n > 0
    ensures BitLength(n) >= 1 && Pow2(BitLength(n) - 1) <= n < Pow2(BitLength(n))
  {
    if n / 2 > 0 {
      BitLengthBounds(n / 2);
    } else {
      assert n == 1 && BitLength(1) == 1 + BitLength(0) == 1;
    }
  }

  lemma {:induction false} BitLengthBelow(n: nat, m: nat)
    requires n < Pow2(m)
    ensures BitLength(n) <= m
    decreases m
  {
    if n > 0 && m > 0 {
      BitLengthBelow(n / 2, m - 1);
    }
  }

  /** The signed 32-bit reading that JavaScript's `>>` takes of a number. */
  function ToInt32(n: int): int {
    (n + TWO31) % TWO32 - TWO31
  }

  /** What `while (t > 0) { t >>= 1; k++ }` counts. */
  function LoopBits(t: int): (k: nat)
    decreases if t > 0 then t else 0
  {
    if t <= 0 then 0 else 1 + LoopBits(ToInt32(t) / 2)
  }

  lemma {:induction false} LoopBitsSmall(t: nat)
    requires t < TWO31
    ensures LoopBits(t) == BitLength(t) <= 31
  {
    LoopIsBitLength(t);
    assert Pow2(31) == TWO31 by { Pow2Values(); }
    BitLengthBelow(t, 31);
  }

  lemma {:induction false} LoopIsBitLength(t: nat)
    requires t < TWO31
    ensures LoopBits(t) == BitLength(t)
  {
    if t > 0 {
      assert ToInt32(t) == t;
      LoopIsBitLength(t / 2);
    }
  }

  lemma {:induction false} LoopBitsBound(n: nat)
    ensures LoopBits(n) <= 31
  {
    if n < TWO31 {
      LoopBitsSmall(n);
    } else {
      var t := ToInt32(n) / 2;
      assert t < 0x4000_0000;
      if t > 0 {
        LoopBitsSmall(t);
        assert Pow2(30) == 0x4000_0000 by { Pow2Values(); }
        BitLengthBelow(t, 30);
      }
    }
  }

  /** The loop counts the binary digits of `n` exactly below 2^31: `>>` reads larger numbers as signed. */
  lemma {:induction false} LoopBitsExact(n: nat)
    ensures LoopBits(n) == BitLength(n) <==> n < TWO31
  {
    if n < TWO31 {
      LoopBitsSmall(n);
    } else {
      LoopBitsBound(n);
      BitLengthBounds(n);
      if BitLength(n) <= 31 {
        Pow2Values();
        Pow2Mono(BitLength(n), 31);
      }
    }
  }

  /** What the loop counts for any `n`: its low 32 bits, read as a signed number, shifted once and then counted. */
  lemma {:induction false} LoopBitsBeyond(n: nat)
    requires n > 0
    ensures LoopBits(n) == 1 + if n % TWO32 < TWO31 then BitLength(n % TWO32 / 2) else 0
  {
    var m := n % TWO32;
    SignedIs(n);
    if m < TWO31 {
      LoopBitsSmall(m / 2);
    }
  }

  lemma {:induction false} SignedIs(n: nat)
    ensures ToInt32(n) == if n % TWO32 < TWO31 then n % TWO32 else n % TWO32 - TWO32
  {
    var q, m := n / TWO32, n % TWO32;
    if m < TWO31 {
      DivUnique(n + TWO31, TWO32, q, m + TWO31);
    } else {
      DivUnique(n + TWO31, TWO32, q + 1, m - TWO31);
    }
  }

  /** One draw is exactly uniform on [0, n), 2^(32-k) words to each value, if and only if n < 2^31. */
  lemma {:induction false} UniformExactly(n: nat)
    requires n > 0
    ensures LoopBits(n) <= 31
    ensures (forall r :: 0 <= r < n ==> |Preimage(LoopBits(n), r)| == Pow2(32 - LoopBits(n))) <==> n < TWO31
  {
    LoopBitsBound(n);
    var k := LoopBits(n);
    if n < TWO31 {
      LoopBitsSmall(n);
      BitLengthBounds(n);
      forall r | 0 <= r < n
        ensures |Preimage(k, r)| == Pow2(32 - k)
      {
        FieldCount(k, r);
      }
    } else {
      Pow2Values();
      Pow2Mono(k, 31);
      FieldCount(k, n - 1);
      assert Preimage(k, n - 1) == {};
    }
  }

  // ----- rejection sampling

  ghost predicate Accepts(s: State, p: nat, n: nat)
    requires n > 0
  {
    LoopBitsBound(n);
    TakeBits(Output(s, p), LoopBits(n)) < n
  }

  /** Any output below 2^31 ends the rejection loop, whatever the bound. */
  lemma {:induction false} TopClearAccepts(s: State, p: nat, n: nat)
    requires n > 0 && !TopBit(Output(s, p))
    ensures Accepts(s, p, n)
  {
    LoopBitsBound(n);
    var k, w := LoopBits(n), Output(s, p);
    if n < TWO31 {
      LoopBitsSmall(n);
      BitLengthBounds(n);
      TopClearField(w, k);
    } else {
      FieldRange(k);
      Pow2Mono(k, 31);
      Pow2Values();
    }
  }

  lemma {:induction false} TopClearField(w: Word, k: nat)
    requires !TopBit(w) && 1 <= k <= 31
    ensures TakeBits(w, k) < Pow2(k - 1)
  {
    HalfRange(k);
    QuotientBelow(w, Pow2(32 - k), Pow2(k - 1));
    ModSmall(32 - k, 32);
  }

  lemma {:induction false} HalfRange(k: nat)
    requires 1 <= k <= 31
    ensures Pow2(32 - k) * Pow2(k - 1) == TWO31
  {
    Pow2Values();
    Pow2Add(32 - k, k - 1);
  }

  lemma {:induction false} QuotientBelow(w: nat, d: nat, b: nat)
    requires d > 0 && w < d * b
    ensures w / d < b
  {
    var q := w / d;
    assert q * d <= w;
    if q >= b {
      MulMono(b, q, d);
      assert false;
    }
  }

  lemma {:induction false} SomeDrawAccepted(s: State, p: nat, n: nat)
    requires n > 0
    ensures exists q :: q >= p && Accepts(s, q, n)
  {
    Liveness.TopBitClearsAgain(s, p);
    var q :| q >= p && !TopBit(Temper(X(s, q)));
    TopClearAccepts(s, q, n);
  }

  /** The position of the first word from `p` on that the rejection loop keeps. */
  ghost function FirstAccepted(s: State, p: nat, n: nat): (q: nat)
    requires n > 0
    ensures q >= p && Accepts(s, q, n)
    ensures forall i :: p <= i < q ==> !Accepts(s, i, n)
  {
    SomeDrawAccepted(s, p, n);
    var q :| q >= p && Accepts(s, q, n);
    FirstUpTo(s, p, n, q)
  }

  ghost function FirstUpTo(s: State, p: nat, n: nat, limit: nat): (q: nat)
    requires n > 0 && p <= limit && Accepts(s, limit, n)
    ensures p <= q <= limit && Accepts(s, q, n)
    ensures forall i :: p <= i < q ==> !Accepts(s, i, n)
    decreases limit - p
  {
    if Accepts(s, p, n) then p else FirstUpTo(s, p + 1, n, limit)
  }

  /** The value of a draw below `n` at position `p`, and the position after it. */
  ghost function Below(s: State, p: nat, n: int): (r: (nat, nat))
    ensures n > 0 ==> 0 <= r.0 < n && r.1 > p
    ensures n <= 0 ==> r == (0, p)
  {
    if n <= 0 then (0, p)
    else
      LoopBitsBound(n);
      var q := FirstAccepted(s, p, n);
      (TakeBits(Output(s, q), LoopBits(n)), q + 1)
  }

  /** The word before `next` is the first from `p` on whose top bits, as many as the loop counts, are below `n`. */
  ghost predicate KeepsFirst(s: State, p: nat, n: nat, r: int, next: nat) {
    && p < next
    && var d := Pow2((32 - LoopBits(n)) % 32);
       && r == Output(s, next - 1) / d < n
       && forall q: nat :: p <= q < next - 1 ==> Output(s, q) / d >= n
  }

  lemma {:induction false} AcceptsIs(s: State, q: nat, n: nat, d: nat)
    requires n > 0 && d == Pow2((32 - LoopBits(n)) % 32)
    ensures Accepts(s, q, n) <==> Output(s, q) / d < n
  {
    LoopBitsBound(n);
  }

  lemma {:induction false} BelowKeepsFirst(s: State, p: nat, n: nat)
    requires n > 0
    ensures KeepsFirst(s, p, n, Below(s, p, n).0, Below(s, p, n).1)
  {
    LoopBitsBound(n);
    var f, d := FirstAccepted(s, p, n), Pow2((32 - LoopBits(n)) % 32);
    AcceptsIs(s, f, n, d);
    forall q: nat | p <= q < f
      ensures Output(s, q) / d >= n
    {
      AcceptsIs(s, q, n, d);
      assert !Accepts(s, q, n);
    }
  }

  lemma {:induction false} FirstIsOne(s: State, p: nat, n: nat, r: nat, next: nat, r': nat, next': nat)
    requires KeepsFirst(s, p, n, r, next) && KeepsFirst(s, p, n, r', next')
    ensures r == r' && next == next'
  {
    var d := Pow2((32 - LoopBits(n)) % 32);
    assert Output(s, next - 1) / d < n && Output(s, next' - 1) / d < n;
  }

  lemma {:induction false} BelowExactly(s: State, p: nat, n: nat, r: nat, next: nat)
    requires n > 0
    ensures Below(s, p, n) == (r, next) <==> KeepsFirst(s, p, n, r, next)
  {
    BelowKeepsFirst(s, p, n);
    if KeepsFirst(s, p, n, r, next) {
      FirstIsOne(s, p, n, r, next, Below(s, p, n).0, Below(s, p, n).1);
    }
  }

  // ----- wide draws

  /** `k` bits from consecutive words, low word first; the last word gives only the bits still missing. */
  ghost function Wide(s: State, p: nat, k: nat): nat
    decreases k
  {
    if k == 0 then 0
    else if k <= 32 then TakeBits(Output(s, p), k)
    else Output(s, p) + TWO32 * Wide(s, p + 1, k - 32)
  }

  function Ceil32(k: nat): nat {
    (k + 31) / 32
  }

  lemma {:induction false} WideBound(s: State, p: nat, k: nat)
    ensures Wide(s, p, k) < Pow2(k)
    decreases k
  {
    if 0 < k <= 32 {
      FieldRange(k);
    } else if k > 32 {
      WideBound(s, p + 1, k - 32);
      WordAndRest(Output(s, p), Wide(s, p + 1, k - 32), k - 32);
    }
  }

  lemma {:induction false} WordAndRest(w: Word, rest: nat, m: nat)
    requires rest < Pow2(m)
    ensures w + TWO32 * rest < Pow2(m + 32)
  {
    Pow2Values();
    Pow2Add(32, m);
    MulMono(rest + 1, Pow2(m), TWO32);
  }

  /** Base-2^32 digit `i` of a wide draw is word `i` of the stream, cut short only at the top. */
  lemma {:induction false} WideDigit(s: State, p: nat, k: nat, i: nat)
    requires 32 * i < k
    ensures (Wide(s, p, k) / Pow2(32 * i)) % TWO32
         == TakeBits(Output(s, p + i), if k - 32 * i < 32 then k - 32 * i else 32)
    decreases i
  {
    if i == 0 {
      WideLow(s, p, k);
    } else {
      var m := 32 * (i - 1);
      WideDigit(s, p + 1, k - 32, i - 1);
      WideRest(s, p, k, m);
      assert 32 + m == 32 * i && k - 32 - m == k - 32 * i && p + 1 + (i - 1) == p + i;
    }
  }

  lemma {:induction false} WideRest(s: State, p: nat, k: nat, m: nat)
    requires k > 32
    ensures Wide(s, p, k) / Pow2(32 + m) == Wide(s, p + 1, k - 32) / Pow2(m)
  {
    WideFirst(s, p, k);
    DivByProduct(Output(s, p), Wide(s, p + 1, k - 32), m);
  }

  lemma {:induction false} WideFirst(s: State, p: nat, k: nat)
    requires k > 32
    ensures Wide(s, p, k) == Output(s, p) + TWO32 * Wide(s, p + 1, k - 32)
  {
  }

  lemma {:induction false} WideLow(s: State, p: nat, k: nat)
    requires k > 0
    ensures (Wide(s, p, k) / Pow2(32 * 0)) % TWO32 == TakeBits(Output(s, p), if k < 32 then k else 32)
  {
    var w := Output(s, p);
    OverOne(Wide(s, p, k), 32 * 0);
    if k > 32 {
      ModUnique(w, Wide(s, p + 1, k - 32));
      AllBits(w);
    } else {
      ModSmall(TakeBits(w, k), TWO32);
      if k == 32 { AllBits(w); }
    }
  }

  lemma {:induction false} AllBits(w: Word)
    ensures TakeBits(w, 32) == w
  {
  }

  lemma {:induction false} OverOne(n: nat, m: nat)
    requires m == 0
    ensures n / Pow2(m) == n
  {
  }

  lemma {:induction false} ModUnique(low: Word, rest: nat)
    ensures (low + TWO32 * rest) % TWO32 == low
  {
  }

  lemma {:induction false} DivByProduct(low: Word, rest: nat, m: nat)
    ensures (low + TWO32 * rest) / Pow2(32 + m) == rest / Pow2(m)
  {
    Pow2Values();
    Pow2Add(32, m);
    var d := Pow2(m);
    var q, r := rest / d, rest % d;
    assert rest == q * d + r;
    assert TWO32 * rest == TWO32 * (q * d) + TWO32 * r;
    assert TWO32 * (q * d) == q * (TWO32 * d);
    assert low + TWO32 * r < TWO32 * d by { assert r + 1 <= d; }
    DivUnique(low + TWO32 * rest, TWO32 * d, q, low + TWO32 * r);
  }

  /** One turn of the wide loop: or-ing in the next word's field moves it from the rest to the result. */
  lemma {:induction false} WideStep(s: State, p: nat, remaining: nat, r: nat, shift: nat)
    requires remaining > 0 && r < Pow2(shift)
    ensures var word := TakeBits(Output(s, p), if remaining < 32 then remaining else 32);
      && Or(r, Shl(word, shift)) < Pow2(shift + 32)
      && Or(r, Shl(word, shift)) + Shl(Wide(s, p + 1, if remaining > 32 then remaining - 32 else 0), shift + 32)
         == r + Shl(Wide(s, p, remaining), shift)
  {
    var word := TakeBits(Output(s, p), if remaining < 32 then remaining else 32);
    var rest := Wide(s, p + 1, if remaining > 32 then remaining - 32 else 0);
    assert Wide(s, p, remaining) == word + TWO32 * rest by {
      assert TakeBits(Output(s, p), 32) == Output(s, p) by { assert Pow2(0) == 1; }
    }
    OrDisjoint(r, word, shift);
    FieldAbove(word, rest, r, shift);
  }

  lemma {:induction false} FieldAbove(word: Word, rest: nat, r: nat, shift: nat)
    requires r < Pow2(shift)
    ensures r + Shl(word, shift) < Pow2(shift + 32)
    ensures Shl(word + TWO32 * rest, shift) == Shl(word, shift) + Shl(rest, shift + 32)
  {
    var d := Pow2(shift);
    assert Pow2(shift + 32) == d * TWO32 by {
      Pow2Values();
      Pow2Add(shift, 32);
    }
    ShlIsMul(word, shift);
    ShlIsMul(rest, shift + 32);
    ShlIsMul(word + TWO32 * rest, shift);
    TopInterval(word, d, TWO32);
    Distributes(word, rest, d);
  }

  lemma {:induction false} Distributes(word: nat, rest: nat, d: nat)
    ensures (word + TWO32 * rest) * d == word * d + rest * (d * TWO32)
  {
  }
}
