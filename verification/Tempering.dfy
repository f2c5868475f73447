/** MT19937's output tempering: four linear mixing steps, each undone by iterating its own shift. */
module Tempering {
  import opened Bits

  datatype Mix = Right(shift: nat) | Left(shift: nat, mask: Word)

  const MIX1 := Right(11)
  const MIX2 := Left(7, 0x9d2c5680)
  const MIX3 := Left(15, 0xefc60000)
  const MIX4 := Right(18)

  /** The shifted (and masked) copy a step folds into its word. */
  function Shifted(m: Mix, y: Word): (z: Word)
  {
    match m
    case Right(shift) =>
      ShrBound(y, shift);
      Shr(y, shift)
    case Left(shift, mask) =>
      Pow2Values();
      AndBound(Shl(y, shift), mask, 32);
      And(Shl(y, shift), mask)
  }

  function Fold(m: Mix, y: Word): Word {
    XorW(y, Shifted(m, y))
  }

  /** `y ^= y >>> 11; y ^= (y << 7) & 0x9d2c5680; y ^= (y << 15) & 0xefc60000; y ^= y >>> 18` */
  function Temper(y: Word): Word {
    Fold(MIX4, Fold(MIX3, Fold(MIX2, Fold(MIX1, y))))
  }

  function Unfold(m: Mix, z: Word, n: nat): Word {
    if n == 0 then z else XorW(z, Shifted(m, Unfold(m, z, n - 1)))
  }

  function Untemper(z: Word): Word {
    Unfold(MIX1, Unfold(MIX2, Unfold(MIX3, Unfold(MIX4, z, 4), 4), 4), 4)
  }

  lemma {:induction false} ShrBound(y: nat, m: nat)
    ensures Shr(y, m) <= y
    decreases m
  {
    if m > 0 {
      ShrBound(y / 2, m - 1);
    }
  }

  // ----- linearity

  lemma {:induction false} ShiftedXor(m: Mix, a: Word, b: Word)
    ensures Shifted(m, XorW(a, b)) == XorW(Shifted(m, a), Shifted(m, b))
  {
    match m
    case Right(shift) =>
      XorShr(a, b, shift);
    case Left(shift, mask) =>
      XorShl(a, b, shift);
      AndXor(Shl(a, shift), Shl(b, shift), mask);
  }

  lemma {:induction false} FoldXor(m: Mix, a: Word, b: Word)
    ensures Fold(m, XorW(a, b)) == XorW(Fold(m, a), Fold(m, b))
  {
    ShiftedXor(m, a, b);
    XorSwap(a, b, Shifted(m, a), Shifted(m, b));
  }

  lemma {:induction false} TemperXor(a: Word, b: Word)
    ensures Temper(XorW(a, b)) == XorW(Temper(a), Temper(b))
  {
    var a1, b1 := Fold(MIX1, a), Fold(MIX1, b);
    var a2, b2 := Fold(MIX2, a1), Fold(MIX2, b1);
    FoldXor(MIX1, a, b);
    FoldXor(MIX2, a1, b1);
    FoldXor(MIX3, a2, b2);
    FoldXor(MIX4, Fold(MIX3, a2), Fold(MIX3, b2));
  }

  // ----- which function it is, bit by bit

  lemma {:induction false} FoldBit(m: Mix, y: Word, i: nat)
    requires i < 32
    ensures var moved := if m.Right? then Bit(y, i + m.shift)
                         else i >= m.shift && Bit(y, i - m.shift) && Bit(m.mask, i);
      Bit(Fold(m, y), i) <==> Bit(y, i) != moved
  {
    BitXor(y, Shifted(m, y), i);
    if m.Right? {
      BitShr(y, m.shift, i);
      assert m.shift + i == i + m.shift;
    } else {
      BitAnd(Shl(y, m.shift), m.mask, i);
      BitShl(y, m.shift, i);
    }
  }

  predicate AfterFirst(y: Word, i: nat) {
    Bit(y, i) != Bit(y, i + 11)
  }

  predicate AfterSecond(y: Word, i: nat) {
    AfterFirst(y, i) != (i >= 7 && AfterFirst(y, i - 7) && Bit(0x9d2c5680, i))
  }

  predicate AfterThird(y: Word, i: nat) {
    AfterSecond(y, i) != (i >= 15 && AfterSecond(y, i - 15) && Bit(0xefc60000, i))
  }

  /** Each output bit as an exclusive or of input bits. */
  lemma {:induction false} TemperBit(y: Word, i: nat)
    requires i < 32
    ensures Bit(Temper(y), i) <==> AfterThird(y, i) != (i + 18 < 32 && AfterThird(y, i + 18))
  {
    var y3 := Fold(MIX3, Fold(MIX2, Fold(MIX1, y)));
    FoldBit(MIX4, y3, i);
    ThirdBit(y, i);
    if i + 18 < 32 { ThirdBit(y, i + 18); } else { WordBeyond(y3, i + 18); }
  }

  lemma {:induction false} FirstBit(y: Word, i: nat)
    requires i < 32
    ensures Bit(Fold(MIX1, y), i) <==> AfterFirst(y, i)
  {
    FoldBit(MIX1, y, i);
  }

  lemma {:induction false} SecondBit(y: Word, i: nat)
    requires i < 32
    ensures Bit(Fold(MIX2, Fold(MIX1, y)), i) <==> AfterSecond(y, i)
  {
    FoldBit(MIX2, Fold(MIX1, y), i);
    FirstBit(y, i);
    if i >= 7 { FirstBit(y, i - 7); }
  }

  lemma {:induction false} ThirdBit(y: Word, i: nat)
    requires i < 32
    ensures Bit(Fold(MIX3, Fold(MIX2, Fold(MIX1, y))), i) <==> AfterThird(y, i)
  {
    FoldBit(MIX3, Fold(MIX2, Fold(MIX1, y)), i);
    SecondBit(y, i);
    if i >= 15 { SecondBit(y, i - 15); }
  }

  // ----- every step is nilpotent, so its iteration inverts it

  function Iterate(m: Mix, y: Word, n: nat): Word {
    if n == 0 then y else Shifted(m, Iterate(m, y, n - 1))
  }

  lemma {:induction false} UnfoldFold(m: Mix, y: Word, n: nat)
    ensures Unfold(m, Fold(m, y), n) == XorW(y, Iterate(m, y, n + 1))
  {
    var g, h := Shifted(m, y), Iterate(m, y, n);
    if n == 0 {
      assert h == y;
    } else {
      UnfoldFold(m, y, n - 1);
      ShiftedXor(m, y, h);
      XorAssoc(y, g, XorW(g, Shifted(m, h)));
      XorCancel(Shifted(m, h), g);
    }
  }

  lemma {:induction false} FoldUnfold(m: Mix, z: Word, n: nat)
    ensures Fold(m, Unfold(m, z, n)) == XorW(z, Iterate(m, z, n + 1))
  {
    if n == 0 {
      assert Iterate(m, z, 1) == Shifted(m, Iterate(m, z, 0)) == Shifted(m, z);
    } else {
      var u := Unfold(m, z, n - 1);
      var i := Iterate(m, z, n);
      FoldUnfold(m, z, n - 1);
      // Unfold(n) = z ^ Shifted(u), and u ^ Shifted(u) = z ^ i
      var v := Unfold(m, z, n);
      XorCancel(u, Shifted(m, u));
      XorAssoc(z, i, Shifted(m, u));
      XorComm(i, Shifted(m, u));
      XorAssoc(z, Shifted(m, u), i);
      assert u == XorW(v, i);
      XorCancel(v, i);
      ShiftedXor(m, u, i);
      assert v == XorW(u, i);
      XorAssoc(z, Shifted(m, u), XorW(Shifted(m, u), Shifted(m, i)));
      XorCancel(Shifted(m, i), Shifted(m, u));
    }
  }

  /** Five rounds of a shift by seven or more push every bit out of the word. */
  lemma {:induction false} Nilpotent(m: Mix, y: Word)
    requires m.shift >= 7
    ensures Iterate(m, y, 5) == 0
  {
    if m.Left? {
      IterateLow(m, y, 5);
      var z := Iterate(m, y, 5);
      ShrIsDiv(z, 5 * m.shift);
      Pow2Values();
      Pow2Mono(32, 5 * m.shift);
      if Shr(z, 5 * m.shift) > 0 {
        MulAtLeast(Shr(z, 5 * m.shift), Pow2(5 * m.shift));
      }
    } else {
      IterateHigh(m, y, 5);
    }
  }

  lemma {:induction false} IterateLow(m: Mix, y: Word, n: nat)
    requires m.Left?
    ensures LowBits(Iterate(m, y, n), n * m.shift) == 0
  {
    if n > 0 {
      var x := Iterate(m, y, n - 1);
      IterateLow(m, y, n - 1);
      ShlLow(x, (n - 1) * m.shift, m.shift);
      assert (n - 1) * m.shift + m.shift == n * m.shift;
      AndLowZero(Shl(x, m.shift), m.mask, n * m.shift);
    }
  }

  lemma {:induction false} ShlLow(x: nat, low: nat, m: nat)
    requires LowBits(x, low) == 0
    ensures LowBits(Shl(x, m), low + m) == 0
  {
    if m > 0 {
      ShlLow(x, low, m - 1);
    }
  }

  lemma {:induction false} IterateHigh(m: Mix, y: Word, n: nat)
    requires m.Right? && m.shift >= 7
    ensures Iterate(m, y, n) < Pow2(if 7 * n <= 32 then 32 - 7 * n else 0)
  {
    if n == 0 {
      Pow2Values();
    } else {
      IterateHigh(m, y, n - 1);
      var h := if 7 * (n - 1) <= 32 then 32 - 7 * (n - 1) else 0;
      var x := Iterate(m, y, n - 1);
      ShrSmall(x, h, m.shift);
      Pow2Mono(if h >= m.shift then h - m.shift else 0, if 7 * n <= 32 then 32 - 7 * n else 0);
    }
  }

  lemma {:induction false} ShrSmall(x: nat, h: nat, m: nat)
    requires x < Pow2(h)
    ensures Shr(x, m) < Pow2(if h >= m then h - m else 0)
    decreases m
  {
    if m > 0 {
      if h == 0 {
        ShrBound(x, m);
      } else {
        ShrSmall(x / 2, h - 1, m - 1);
      }
    }
  }

  lemma {:induction false} FoldBijective(m: Mix, y: Word)
    requires m.shift >= 7
    ensures Unfold(m, Fold(m, y), 4) == y
    ensures Fold(m, Unfold(m, y, 4)) == y
  {
    UnfoldFold(m, y, 4);
    FoldUnfold(m, y, 4);
    Nilpotent(m, y);
    XorZero(y);
  }

  /** Tempering loses nothing: it is a bijection of the 32-bit words, and `Untemper` is its inverse. */
  lemma {:induction false} TemperBijective(y: Word)
    ensures Untemper(Temper(y)) == y
    ensures Temper(Untemper(y)) == y
  {
    var y1 := Fold(MIX1, y);
    var y2 := Fold(MIX2, y1);
    FoldBijective(MIX1, y);
    FoldBijective(MIX2, y1);
    FoldBijective(MIX3, y2);
    FoldBijective(MIX4, Fold(MIX3, y2));
    var z4 := Unfold(MIX4, y, 4);
    var z3 := Unfold(MIX3, z4, 4);
    FoldBijective(MIX3, z4);
    FoldBijective(MIX2, z3);
    FoldBijective(MIX4, y);
    FoldBijective(MIX1, Unfold(MIX2, z3, 4));
  }
}
