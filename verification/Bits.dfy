/** Bitwise operators on natural numbers, and the 32-bit words JavaScript's `>>>`, `^` and `&` act on. */
module Bits {

  const TWO31: nat := 0x8000_0000
  const TWO32: nat := 0x1_0000_0000

  type Word = w: int | 0 <= w < TWO32

  function Pow2(n: nat): (p: nat)
    ensures p > 0
  {
    if n == 0 then 1 else 2 * Pow2(n - 1)
  }

  function Xor(a: nat, b: nat): nat
    decreases a + b
  {
    if a == 0 && b == 0 then 0
    else (if a % 2 == b % 2 then 0 else 1) + 2 * Xor(a / 2, b / 2)
  }

  function And(a: nat, b: nat): nat
    decreases a + b
  {
    if a == 0 || b == 0 then 0 else (if a % 2 == 1 && b % 2 == 1 then 1 else 0) + 2 * And(a / 2, b / 2)
  }

  function Or(a: nat, b: nat): nat
    decreases a + b
  {
    if a == 0 && b == 0 then 0
    else (if a % 2 == 1 || b % 2 == 1 then 1 else 0) + 2 * Or(a / 2, b / 2)
  }

  // ----- exclusive or is a group operation in which every element is its own inverse

  lemma {:induction false} SameHalves(x: nat, y: nat)
    requires x % 2 == y % 2 && x / 2 == y / 2
    ensures x == y
  {
  }

  /** The bit-by-bit reading of `Xor`, without its base case. */
  lemma {:induction false} XorStep(a: nat, b: nat)
    ensures Xor(a, b) % 2 == if a % 2 == b % 2 then 0 else 1
    ensures Xor(a, b) / 2 == Xor(a / 2, b / 2)
  {
    ghost var x, bit := Xor(a / 2, b / 2), if a % 2 == b % 2 then 0 else 1;
    if a == 0 && b == 0 {
      assert Xor(a, b) == 0 && x == 0;
    } else {
      assert Xor(a, b) == bit + 2 * x;
      Parity(Xor(a, b), x, bit);
    }
  }

  lemma {:induction false} Parity(n: nat, half: nat, bit: nat)
    requires n == bit + 2 * half && bit < 2
    ensures n / 2 == half && n % 2 == bit
  {
  }

  lemma {:induction false} XorZero(a: nat)
    ensures Xor(a, 0) == a && Xor(0, a) == a
  {
    if a > 0 {
      XorZero(a / 2);
    }
  }

  lemma {:induction false} XorSelf(a: nat)
    ensures Xor(a, a) == 0
  {
    if a > 0 {
      XorSelf(a / 2);
    }
  }

  lemma {:induction false} XorComm(a: nat, b: nat)
    ensures Xor(a, b) == Xor(b, a)
    decreases a + b
  {
    if a > 0 || b > 0 {
      XorComm(a / 2, b / 2);
    }
  }

  lemma {:induction false} XorAssoc(a: nat, b: nat, c: nat)
    ensures Xor(Xor(a, b), c) == Xor(a, Xor(b, c))
    decreases a + b + c
  {
    if a > 0 || b > 0 || c > 0 {
      XorAssoc(a / 2, b / 2, c / 2);
      XorStep(a, b);
      XorStep(b, c);
      XorStep(Xor(a, b), c);
      XorStep(a, Xor(b, c));
      SameHalves(Xor(Xor(a, b), c), Xor(a, Xor(b, c)));
    }
  }

  /** Two pairs of terms may be regrouped. */
  lemma {:induction false} XorSwap(a: nat, b: nat, c: nat, d: nat)
    ensures Xor(Xor(a, b), Xor(c, d)) == Xor(Xor(a, c), Xor(b, d))
  {
    XorAssoc(a, b, Xor(c, d));
    XorAssoc(b, c, d);
    XorComm(b, c);
    XorAssoc(c, b, d);
    XorAssoc(a, c, Xor(b, d));
  }

  lemma {:induction false} XorCancel(a: nat, b: nat)
    ensures Xor(Xor(a, b), b) == a
    ensures Xor(b, Xor(b, a)) == a
  {
    XorAssoc(a, b, b);
    XorAssoc(b, b, a);
    XorSelf(b);
    XorZero(a);
  }

  /** A chain of differences telescopes. */
  lemma {:induction false} XorChain(a: nat, b: nat, c: nat)
    ensures Xor(Xor(a, b), Xor(b, c)) == Xor(a, c)
  {
    XorAssoc(a, b, Xor(b, c));
    XorCancel(c, b);
  }

  lemma {:induction false} XorInjective(a: nat, b: nat, c: nat)
    requires Xor(a, c) == Xor(b, c)
    ensures a == b
  {
    XorCancel(a, c);
    XorCancel(b, c);
  }

  // ----- powers of two, shifts and masks

  lemma {:induction false} Pow2Add(m: nat, n: nat)
    ensures Pow2(m + n) == Pow2(m) * Pow2(n)
  {
    if m > 0 {
      Pow2Add(m - 1, n);
      assert Pow2(m + n) == 2 * Pow2(m - 1 + n);
      assert 2 * (Pow2(m - 1) * Pow2(n)) == Pow2(m) * Pow2(n);
    }
  }

  lemma {:induction false} Pow2Mono(m: nat, n: nat)
    requires m <= n
    ensures Pow2(m) <= Pow2(n)
  {
    if m < n {
      Pow2Mono(m, n - 1);
    }
  }

  lemma {:induction false} Pow2Values()
    ensures Pow2(0) == 1 && Pow2(1) == 2 && Pow2(7) == 128 && Pow2(11) == 2048 && Pow2(14) == 16384
    ensures Pow2(15) == 32768 && Pow2(18) == 262144 && Pow2(31) == TWO31 && Pow2(32) == TWO32
  {
    assert Pow2(8) == 256;
    assert Pow2(16) == 0x1_0000;
    assert Pow2(24) == 0x100_0000;
  }

  function Shr(a: nat, m: nat): nat
  {
    if m == 0 then a else Shr(a / 2, m - 1)
  }

  function LowBits(a: nat, m: nat): nat
  {
    if m == 0 then 0 else a % 2 + 2 * LowBits(a / 2, m - 1)
  }

  /** Shifting right divides and keeping the low bits takes the remainder. */
  lemma {:induction false} ShrIsDiv(a: nat, m: nat)
    ensures a == Shr(a, m) * Pow2(m) + LowBits(a, m) && LowBits(a, m) < Pow2(m)
    ensures Shr(a, m) == a / Pow2(m) && LowBits(a, m) == a % Pow2(m)
    decreases m
  {
    if m > 0 {
      ShrIsDiv(a / 2, m - 1);
      TwiceProduct(Shr(a / 2, m - 1), Pow2(m - 1));
    } else {
      assert Shr(a, 0) * Pow2(0) == a;
    }
    DivUnique(a, Pow2(m), Shr(a, m), LowBits(a, m));
  }

  lemma {:induction false} TwiceProduct(q: nat, d: nat)
    ensures q * (2 * d) == 2 * (q * d)
  {
  }

  lemma {:induction false} DivUnique(a: nat, d: nat, q: int, r: int)
    requires a == q * d + r && 0 <= r < d
    ensures a / d == q && a % d == r
  {
    var q', r' := a / d, a % d;
    assert a == q' * d + r';
    assert (q' - q) * d == r - r';
    if q' > q {
      MulAtLeast(q' - q, d);
    } else if q' < q {
      MulAtLeast(q - q', d);
    }
  }

  lemma {:induction false} MulAtLeast(k: nat, d: nat)
    requires k >= 1
    ensures k * d >= d
  {
  }

  /** `x >>> m` distributes over exclusive or. */
  lemma {:induction false} XorShr(a: nat, b: nat, m: nat)
    ensures Shr(Xor(a, b), m) == Xor(Shr(a, m), Shr(b, m))
    decreases m
  {
    if m > 0 {
      XorStep(a, b);
      XorShr(a / 2, b / 2, m - 1);
    }
  }

  /** `Xor` works inside the low `m` bits independently of the rest. */
  lemma {:induction false} XorLowBits(a: nat, b: nat, m: nat)
    ensures LowBits(Xor(a, b), m) == Xor(LowBits(a, m), LowBits(b, m))
    decreases m
  {
    if m > 0 {
      var x, y := LowBits(a, m), LowBits(b, m);
      XorStep(a, b);
      XorLowBits(a / 2, b / 2, m - 1);
      XorStep(x, y);
      assert x % 2 == a % 2 && x / 2 == LowBits(a / 2, m - 1);
      assert y % 2 == b % 2 && y / 2 == LowBits(b / 2, m - 1);
      SameHalves(LowBits(Xor(a, b), m), Xor(x, y));
    }
  }

  lemma {:induction false} XorBound(a: nat, b: nat, m: nat)
    requires a < Pow2(m) && b < Pow2(m)
    ensures Xor(a, b) < Pow2(m)
    decreases m
  {
    if m > 0 {
      XorStep(a, b);
      XorBound(a / 2, b / 2, m - 1);
    }
  }

  lemma {:induction false} ModSmall(a: nat, d: nat)
    requires a < d
    ensures a % d == a && a / d == 0
  {
  }

  function Shl(a: nat, m: nat): nat
  {
    if m == 0 then a else 2 * Shl(a, m - 1)
  }

  lemma {:induction false} ShlIsMul(a: nat, m: nat)
    ensures Shl(a, m) == a * Pow2(m)
  {
    if m > 0 {
      ShlIsMul(a, m - 1);
    }
  }

  lemma {:induction false} XorDouble(a: nat, b: nat)
    ensures Xor(2 * a, 2 * b) == 2 * Xor(a, b)
  {
    XorStep(2 * a, 2 * b);
  }

  lemma {:induction false} XorShl(a: nat, b: nat, m: nat)
    ensures Xor(Shl(a, m), Shl(b, m)) == Shl(Xor(a, b), m)
    decreases m
  {
    if m > 0 {
      XorShl(a, b, m - 1);
      XorDouble(Shl(a, m - 1), Shl(b, m - 1));
    }
  }

  lemma {:induction false} AndStep(a: nat, b: nat)
    ensures And(a, b) % 2 == if a % 2 == 1 && b % 2 == 1 then 1 else 0
    ensures And(a, b) / 2 == And(a / 2, b / 2)
  {
    ghost var x, bit := And(a / 2, b / 2), if a % 2 == 1 && b % 2 == 1 then 1 else 0;
    if a == 0 || b == 0 {
      assert And(a, b) == 0 && x == 0 && bit == 0;
    } else {
      assert And(a, b) == bit + 2 * x;
      Parity(And(a, b), x, bit);
    }
  }

  lemma {:induction false} AndXor(a: nat, b: nat, mask: nat)
    ensures And(Xor(a, b), mask) == Xor(And(a, mask), And(b, mask))
    decreases a + b
  {
    if a > 0 || b > 0 {
      AndXor(a / 2, b / 2, mask / 2);
      XorStep(a, b);
      AndStep(a, mask);
      AndStep(b, mask);
      AndStep(Xor(a, b), mask);
      XorStep(And(a, mask), And(b, mask));
      SameHalves(And(Xor(a, b), mask), Xor(And(a, mask), And(b, mask)));
    }
  }

  lemma {:induction false} AndBound(a: nat, mask: nat, m: nat)
    requires mask < Pow2(m)
    ensures And(a, mask) < Pow2(m)
    decreases m
  {
    if m > 0 {
      AndBound(a / 2, mask / 2, m - 1);
      AndStep(a, mask);
    }
  }

  /** Masking keeps the low zeros of its argument. */
  lemma {:induction false} AndLowZero(a: nat, mask: nat, m: nat)
    requires LowBits(a, m) == 0
    ensures LowBits(And(a, mask), m) == 0
    decreases m
  {
    if m > 0 {
      AndStep(a, mask);
      AndLowZero(a / 2, mask / 2, m - 1);
    }
  }

  /** `|` of a number below 2^m with a multiple of 2^m is their sum, and so is `^`. */
  lemma {:induction false} OrDisjoint(a: nat, b: nat, m: nat)
    requires a < Pow2(m)
    ensures Or(a, Shl(b, m)) == a + Shl(b, m)
    ensures Xor(a, Shl(b, m)) == a + Shl(b, m)
    decreases m
  {
    if m == 0 {
      OrZero(b);
      XorZero(b);
    } else {
      OrDisjoint(a / 2, b, m - 1);
      XorStep(a, Shl(b, m));
    }
  }

  lemma {:induction false} OrZero(b: nat)
    ensures Or(0, b) == b
  {
    if b > 0 {
      OrZero(b / 2);
    }
  }

  // ----- single bits

  predicate Bit(n: nat, i: nat)
    decreases i
  {
    if i == 0 then n % 2 == 1 else Bit(n / 2, i - 1)
  }

  lemma {:induction false} BitXor(a: nat, b: nat, i: nat)
    ensures Bit(Xor(a, b), i) <==> Bit(a, i) != Bit(b, i)
    decreases i
  {
    XorStep(a, b);
    if i > 0 {
      BitXor(a / 2, b / 2, i - 1);
    }
  }

  lemma {:induction false} BitAnd(a: nat, b: nat, i: nat)
    ensures Bit(And(a, b), i) <==> Bit(a, i) && Bit(b, i)
    decreases i
  {
    AndStep(a, b);
    if i > 0 {
      BitAnd(a / 2, b / 2, i - 1);
    }
  }

  lemma {:induction false} BitShr(a: nat, m: nat, i: nat)
    ensures Bit(Shr(a, m), i) <==> Bit(a, m + i)
    decreases m
  {
    if m > 0 {
      BitShr(a / 2, m - 1, i);
    }
  }

  lemma {:induction false} BitShl(a: nat, m: nat, i: nat)
    ensures Bit(Shl(a, m), i) <==> i >= m && Bit(a, i - m)
    decreases m
  {
    if m > 0 {
      Parity(Shl(a, m), Shl(a, m - 1), 0);
      if i > 0 {
        BitShl(a, m - 1, i - 1);
      }
    }
  }

  lemma {:induction false} BitZero(i: nat)
    ensures !Bit(0, i)
  {
    if i > 0 {
      BitZero(i - 1);
    }
  }

  lemma {:induction false} BitBeyond(n: nat, m: nat, i: nat)
    requires n < Pow2(m) && i >= m
    ensures !Bit(n, i)
    decreases m
  {
    if m == 0 {
      BitZero(i);
    } else {
      BitBeyond(n / 2, m - 1, i - 1);
    }
  }

  /** Its bits decide a number. */
  lemma {:induction false} SameBits(a: nat, b: nat, m: nat)
    requires a < Pow2(m) && b < Pow2(m) && forall i :: 0 <= i < m ==> (Bit(a, i) <==> Bit(b, i))
    ensures a == b
    decreases m
  {
    if m > 0 {
      assert Bit(a, 0) <==> Bit(b, 0);
      forall i | 0 <= i < m - 1
        ensures Bit(a / 2, i) <==> Bit(b / 2, i)
      {
        assert Bit(a, i + 1) <==> Bit(b, i + 1);
      }
      SameBits(a / 2, b / 2, m - 1);
      SameHalves(a, b);
    }
  }

  // ----- words

  function XorW(a: Word, b: Word): Word
  {
    Pow2Values();
    XorBound(a, b, 32);
    Xor(a, b)
  }

  /** The word a sum or product leaves behind under `>>> 0`. */
  function ToWord(n: int): Word
  {
    n % TWO32
  }

  /** Whether bit 31 is set. */
  predicate TopBit(w: Word) {
    w >= TWO31
  }

  lemma {:induction false} WordBeyond(w: Word, i: nat)
    requires i >= 32
    ensures !Bit(w, i)
  {
    Pow2Values();
    BitBeyond(w, 32, i);
  }

  lemma {:induction false} TopBitXor(a: Word, b: Word)
    ensures TopBit(XorW(a, b)) == (TopBit(a) != TopBit(b))
  {
    Pow2Values();
    XorShr(a, b, 31);
    ShrIsDiv(a, 31);
    ShrIsDiv(b, 31);
    ShrIsDiv(XorW(a, b), 31);
    XorZero(1);
    XorSelf(1);
    XorZero(0);
  }

  /** The mask 0x80000000. */
  function Upper(w: Word): Word {
    if TopBit(w) then TWO31 else 0
  }

  /** The mask 0x7fffffff. */
  function Lower(w: Word): Word {
    w % TWO31
  }

  lemma {:induction false} LowerXor(a: Word, b: Word)
    ensures Lower(XorW(a, b)) == XorW(Lower(a), Lower(b))
  {
    Pow2Values();
    XorLowBits(a, b, 31);
    ShrIsDiv(a, 31);
    ShrIsDiv(b, 31);
    ShrIsDiv(XorW(a, b), 31);
  }

  lemma {:induction false} UpperShifted(a: Word, m: nat)
    requires m == 31
    ensures Pow2(m) == TWO31 && Upper(a) == Shl(if TopBit(a) then 1 else 0, m)
  {
    Pow2Values();
    ShlIsMul(if TopBit(a) then 1 else 0, m);
  }

  /** Joining an upper bit with lower bits: the `|` of disjoint masks is a sum, and also an exclusive or. */
  lemma {:induction false} UpperLower(a: Word, b: Word)
    ensures XorW(Upper(a), Lower(b)) == Upper(a) + Lower(b)
    ensures Or(Lower(b), Upper(a)) == Upper(a) + Lower(b)
    ensures Upper(a) + Lower(a) == a
  {
    var u, lo, m := if TopBit(a) then 1 else 0, Lower(b), 31;
    UpperShifted(a, m);
    OrDisjoint(lo, u, m);
    XorComm(Upper(a), lo);
    HalvesJoin(a);
  }

  lemma {:induction false} HalvesJoin(a: Word)
    ensures Upper(a) + Lower(a) == a
  {
    DivUnique(a, TWO31, if TopBit(a) then 1 else 0, if TopBit(a) then a - TWO31 else a);
  }
}
