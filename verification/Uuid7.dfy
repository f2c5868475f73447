/** The version 7 UUIDs of section 5.7 of RFC 9562: text built from a timestamp and random bits, and its reading. */
module Uuid7 {
  import opened Options
  import opened Bits
  import opened Lexicographic

  const TWO12: nat := 0x1000
  const TWO44: nat := 0x1000_0000_0000
  const TWO48: nat := 0x1_0000_0000_0000
  const TWO62: nat := 0x4000_0000_0000_0000

  // ----- hexadecimal

  function Digit(d: nat): char
    requires d < 16
  {
    "0123456789abcdef"[d]
  }

  /** `toString(16)` of a number that is not negative. */
  function ToHex(n: nat): (s: string)
    ensures |s| > 0
  {
    if n < 16 then [Digit(n)] else ToHex(n / 16) + [Digit(n % 16)]
  }

  /** `toString(16)` writes a sign before the magnitude. */
  function ToHexSigned(n: int): string {
    if n >= 0 then ToHex(n) else "-" + ToHex(-n)
  }

  function Zeros(k: nat): string {
    seq(k, _ => '0')
  }

  function PadStart(s: string, width: nat): (t: string)
    ensures |t| >= width
  {
    if |s| >= width then s else Zeros(width - |s|) + s
  }

  /** `s.slice(-k)` */
  function Last(s: string, k: nat): string {
    if |s| <= k then s else s[|s| - k..]
  }

  function DigitValue(c: char): Option<nat> {
    if '0' <= c <= '9' then Some(c as nat - '0' as nat)
    else if 'a' <= c <= 'f' then Some(c as nat - 'a' as nat + 10)
    else None
  }

  /** The number a string of lower-case hexadecimal digits stands for. */
  function ParseHex(s: string): Option<nat> {
    if s == "" then Some(0)
    else
      var front, last := ParseHex(s[..|s| - 1]), DigitValue(s[|s| - 1]);
      if front.None? || last.None? then None else Some(16 * front.value + last.value)
  }

  // ----- the identifier

  /** The canonical 8-4-4-4-12 form. */
  function Hyphenate(h: string): string
    requires |h| >= 32
  {
    h[..8] + "-" + h[8..12] + "-" + h[12..16] + "-" + h[16..20] + "-" + h[20..32]
  }

  function TimestampHex(ms: int): (s: string)
    ensures |s| == 12
  {
    Last(PadStart(ToHexSigned(ms), 12), 12)
  }

  function VersionAndA(randA: nat): nat {
    Or(Shl(0x7, 12), randA)
  }

  function VariantAndB(raw: nat): nat {
    Or(Shl(0x2, 62), And(raw, TWO62 - 1))
  }

  /** `uuid7` on the clock's milliseconds, the 12 bits drawn for `rand_a` and the 64 that are masked for `rand_b`. */
  function Make(ms: int, randA: nat, raw: nat): string {
    var hex := TimestampHex(ms) + PadStart(ToHex(VersionAndA(randA)), 4) + PadStart(ToHex(VariantAndB(raw)), 16);
    Hyphenate(hex)
  }

  datatype Fields = Fields(ms: int, version: nat, randA: nat, variant: nat, randB: nat)

  /** Reads the fields of section 5.7 back, from text in canonical form only. */
  function Decode(u: string): Option<Fields> {
    if |u| != 36 || u[8] != '-' || u[13] != '-' || u[18] != '-' || u[23] != '-' then None
    else
      var ts, va, vb := ParseHex(u[..8] + u[9..13]), ParseHex(u[14..18]), ParseHex(u[19..23] + u[24..]);
      if ts.None? || va.None? || vb.None? then None
      else Some(Fields(ts.value, va.value / TWO12, va.value % TWO12, vb.value / TWO62, vb.value % TWO62))
  }

  // ----- digits of fixed width

  function Pow16(n: nat): (p: nat)
    ensures p > 0
  {
    if n == 0 then 1 else 16 * Pow16(n - 1)
  }

  /** The `width` lowest digits. */
  function Fixed(n: nat, width: nat): (s: string)
    ensures |s| == width
  {
    if width == 0 then "" else Fixed(n / 16, width - 1) + [Digit(n % 16)]
  }

  lemma {:induction false} FixedZero(width: nat)
    ensures Fixed(0, width) == Zeros(width)
  {
    if width > 0 {
      FixedZero(width - 1);
      assert Zeros(width) == Zeros(width - 1) + ['0'];
    }
  }

  lemma {:induction false} PadThenCut(t: string, c: char, width: nat)
    ensures Last(PadStart(t + [c], width + 1), width + 1) == Last(PadStart(t, width), width) + [c]
  {
    assert PadStart(t + [c], width + 1) == PadStart(t, width) + [c];
  }

  lemma {:induction false} OneDigit(n: nat, width: nat)
    requires n < 16 && width > 0
    ensures Last(PadStart(ToHex(n), width), width) == Fixed(n, width)
  {
    FixedZero(width - 1);
    PadOne(Digit(n), width);
    assert n / 16 == 0 && n % 16 == n;
    assert ToHex(n) == [Digit(n)];
    assert Fixed(n, width) == Zeros(width - 1) + [Digit(n)];
  }

  lemma {:induction false} PadOne(c: char, width: nat)
    requires width > 0
    ensures Last(PadStart([c], width), width) == Zeros(width - 1) + [c]
  {
    if width == 1 {
      assert Zeros(0) + [c] == [c];
    }
  }

  /** Padding and cutting a numeral to a width leaves its lowest digits. */
  lemma {:induction false} HexIsFixed(n: nat, width: nat)
    ensures Last(PadStart(ToHex(n), width), width) == Fixed(n, width)
    decreases width
  {
    if width == 0 {
      assert Last(PadStart(ToHex(n), 0), 0) == "";
    } else if n < 16 {
      OneDigit(n, width);
    } else {
      HexIsFixed(n / 16, width - 1);
      PadThenCut(ToHex(n / 16), Digit(n % 16), width - 1);
    }
  }

  lemma {:induction false} HexLength(n: nat, width: nat)
    requires width > 0
    ensures |ToHex(n)| <= width <==> n < Pow16(width)
    decreases width
  {
    if width == 1 {
      assert Pow16(1) == 16 * Pow16(0);
    } else if n >= 16 {
      HexLength(n / 16, width - 1);
    } else {
      assert Pow16(width) >= 16;
    }
  }

  lemma {:induction false} PaddedIsFixed(n: nat, width: nat)
    requires width > 0 && n < Pow16(width)
    ensures PadStart(ToHex(n), width) == Fixed(n, width)
  {
    HexLength(n, width);
    HexIsFixed(n, width);
  }

  function LowDigits(n: nat, width: nat): nat {
    if width == 0 then 0 else 16 * LowDigits(n / 16, width - 1) + n % 16
  }

  lemma {:induction false} ModByDigit(n: nat, p: nat, low: nat)
    requires p > 0 && low == n / 16 % p
    ensures n % (16 * p) == 16 * low + n % 16
  {
    ghost var q := n / 16 / p;
    assert n / 16 == q * p + low;
    assert 16 * (q * p) == q * (16 * p);
    DivUnique(n, 16 * p, q, 16 * low + n % 16);
  }

  lemma {:induction false} LowDigitsIsMod(n: nat, width: nat)
    ensures LowDigits(n, width) == n % Pow16(width)
    decreases width
  {
    if width > 0 {
      LowDigitsIsMod(n / 16, width - 1);
      ModByDigit(n, Pow16(width - 1), LowDigits(n / 16, width - 1));
    }
  }

  lemma {:induction false} LowDigitsSmall(n: nat, width: nat)
    requires n < Pow16(width)
    ensures LowDigits(n, width) == n
  {
    LowDigitsIsMod(n, width);
    ModSmall(n, Pow16(width));
  }

  lemma {:induction false} ParseFixed(n: nat, width: nat)
    ensures ParseHex(Fixed(n, width)) == Some(LowDigits(n, width))
    decreases width
  {
    if width > 0 {
      ParseFixed(n / 16, width - 1);
      ParseSnoc(Fixed(n / 16, width - 1), n % 16);
      assert Fixed(n, width) == Fixed(n / 16, width - 1) + [Digit(n % 16)];
      assert LowDigits(n, width) == 16 * LowDigits(n / 16, width - 1) + n % 16;
    }
  }

  lemma {:induction false} ParseSnoc(s: string, d: nat)
    requires d < 16 && ParseHex(s).Some?
    ensures ParseHex(s + [Digit(d)]) == Some(16 * ParseHex(s).value + d)
  {
    var t := s + [Digit(d)];
    assert t[..|t| - 1] == s;
    DigitRead(d);
  }

  lemma {:induction false} DigitRead(d: nat)
    requires d < 16
    ensures DigitValue(Digit(d)) == Some(d)
  {
  }

  lemma {:induction false} FixedLow(n: nat, width: nat)
    ensures Fixed(LowDigits(n, width), width) == Fixed(n, width)
    decreases width
  {
    if width > 0 {
      FixedLow(n / 16, width - 1);
    }
  }

  /** Numerals of one width are ordered as their numbers are. */
  lemma {:induction false} FixedOrder(m: nat, n: nat, width: nat)
    requires m < Pow16(width) && n < Pow16(width)
    ensures Less(Fixed(m, width), Fixed(n, width)) <==> m < n
    ensures Fixed(m, width) == Fixed(n, width) <==> m == n
    decreases width
  {
    if width > 0 {
      var a, b := [Digit(m % 16)], [Digit(n % 16)];
      FixedOrder(m / 16, n / 16, width - 1);
      LessConcat(Fixed(m / 16, width - 1), Fixed(n / 16, width - 1), a, b);
      DigitOrder(m % 16, n % 16);
      SameSnoc(Fixed(m / 16, width - 1), Digit(m % 16), Fixed(n / 16, width - 1), Digit(n % 16));
    }
  }

  lemma {:induction false} DigitOrder(c: nat, d: nat)
    requires c < 16 && d < 16
    ensures Less([Digit(c)], [Digit(d)]) <==> c < d
    ensures Digit(c) == Digit(d) <==> c == d
  {
    DigitRead(c);
    DigitRead(d);
  }

  lemma {:induction false} SameSnoc(s: string, c: char, t: string, d: char)
    requires |s| == |t|
    ensures s + [c] == t + [d] <==> s == t && c == d
  {
    if s + [c] == t + [d] {
      assert s == (s + [c])[..|s|] && t == (t + [d])[..|t|];
      assert c == (s + [c])[|s|] && d == (t + [d])[|t|];
    }
  }

  // ----- the three numbers

  lemma {:induction false} OrComm(a: nat, b: nat)
    ensures Or(a, b) == Or(b, a)
    decreases a + b
  {
    if a > 0 || b > 0 {
      OrComm(a / 2, b / 2);
    }
  }

  lemma {:induction false} AndMask(a: nat, m: nat)
    ensures And(a, Pow2(m) - 1) == a % Pow2(m)
  {
    AndMaskLow(a, m);
    ShrIsDiv(a, m);
  }

  lemma {:induction false} AndMaskLow(a: nat, m: nat)
    ensures And(a, Pow2(m) - 1) == LowBits(a, m)
    decreases m
  {
    if m > 0 {
      var mask := Pow2(m) - 1;
      assert mask % 2 == 1 && mask / 2 == Pow2(m - 1) - 1;
      AndStep(a, mask);
      AndMaskLow(a / 2, m - 1);
      SameHalves(And(a, mask), LowBits(a, m));
    }
  }

  lemma {:induction false} Tagged(tag: nat, field: nat, m: nat)
    requires field < Pow2(m)
    ensures Or(Shl(tag, m), field) == tag * Pow2(m) + field
  {
    OrComm(Shl(tag, m), field);
    OrDisjoint(field, tag, m);
    ShlIsMul(tag, m);
  }

  lemma {:induction false} Powers()
    ensures Pow2(12) == TWO12 && Pow2(62) == TWO62
    ensures Pow16(4) == 16 * TWO12 && Pow16(11) == TWO44 && Pow16(12) == TWO48 && Pow16(16) == 4 * TWO62
  {
    assert Pow2(8) == 0x100;
    assert Pow2(16) == 0x1_0000;
    assert Pow2(24) == 0x100_0000;
    assert Pow2(32) == 0x1_0000_0000;
    assert Pow2(40) == 0x100_0000_0000;
    assert Pow2(48) == TWO48;
    assert Pow2(56) == 0x100_0000_0000_0000;
    assert Pow16(8) == 0x1_0000_0000;
  }

  lemma {:induction false} TagVersion(randA: nat)
    requires randA < TWO12
    ensures VersionAndA(randA) == 7 * TWO12 + randA
  {
    var m := 12;
    Powers();
    Tagged(7, randA, m);
  }

  lemma {:induction false} TagVariant(raw: nat)
    ensures VariantAndB(raw) == 2 * TWO62 + raw % TWO62
  {
    var m := 62;
    Powers();
    AndMask(raw, m);
    Tagged(2, raw % TWO62, m);
  }

  lemma {:induction false} Tags(randA: nat, raw: nat)
    requires randA < TWO12
    ensures VersionAndA(randA) < 16 * TWO12 && VariantAndB(raw) < 4 * TWO62
    ensures VersionAndA(randA) / TWO12 == 7 && VersionAndA(randA) % TWO12 == randA
    ensures VariantAndB(raw) / TWO62 == 2 && VariantAndB(raw) % TWO62 == raw % TWO62
  {
    TagVersion(randA);
    TagVariant(raw);
  }

  // ----- the text

  lemma {:induction false} MakeText(ms: int, randA: nat, raw: nat)
    requires randA < TWO12
    ensures Make(ms, randA, raw)
            == Hyphenate(TimestampHex(ms) + Fixed(VersionAndA(randA), 4) + Fixed(VariantAndB(raw), 16))
  {
    var wa, wb := 4, 16;
    Tags(randA, raw);
    Powers();
    PaddedIsFixed(VersionAndA(randA), wa);
    PaddedIsFixed(VariantAndB(raw), wb);
  }

  /** Reading the hyphenated form sees the three runs of digits. */
  lemma {:induction false} DecodeParts(a: string, b: string, c: string)
    requires |a| == 12 && |b| == 4 && |c| == 16
    ensures Decode(Hyphenate(a + b + c)) ==
            var ts, va, vb := ParseHex(a), ParseHex(b), ParseHex(c);
            if ts.None? || va.None? || vb.None? then None
            else Some(Fields(ts.value, va.value / TWO12, va.value % TWO12, vb.value / TWO62, vb.value % TWO62))
  {
    var h := a + b + c;
    var u := Hyphenate(h);
    assert h[..8] == a[..8] && h[8..12] == a[8..] && h[12..16] == b && h[16..20] == c[..4] && h[20..32] == c[4..];
    assert u[..8] == a[..8] && u[9..13] == a[8..] && u[14..18] == b && u[19..23] == c[..4] && u[24..] == c[4..];
    assert a[..8] + a[8..] == a && c[..4] + c[4..] == c;
  }

  lemma {:induction false} NotHex(s: string, i: nat)
    requires i < |s| && s[i] == '-'
    ensures ParseHex(s).None?
  {
    if i < |s| - 1 {
      NotHex(s[..|s| - 1], i);
    }
  }

  lemma {:induction false} SignSurvives(digits: string, width: nat)
    requires |digits| < width
    ensures ParseHex(Last(PadStart("-" + digits, width), width)).None?
  {
    var zeros := Zeros(width - 1 - |digits|);
    assert PadStart("-" + digits, width) == zeros + ("-" + digits);
    NotHex(zeros + ("-" + digits), |zeros|);
  }

  lemma {:induction false} SignIsCut(digits: string, width: nat)
    requires |digits| >= width
    ensures Last(PadStart("-" + digits, width), width) == Last(PadStart(digits, width), width)
  {
  }

  lemma {:induction false} LastDigits(n: nat, width: nat)
    ensures ParseHex(Last(PadStart(ToHex(n), width), width)) == Some(n % Pow16(width))
  {
    HexIsFixed(n, width);
    ParseFixed(n, width);
    LowDigitsIsMod(n, width);
  }

  /** The twelve timestamp digits: a sign survives the cut unless eleven digits are too few for the magnitude. */
  lemma {:induction false} TimestampDigits(ms: int)
    ensures ParseHex(TimestampHex(ms)) ==
            if ms >= 0 then Some(ms % TWO48) else if -ms < TWO44 then None else Some(-ms % TWO48)
  {
    var magnitude: nat, width := if ms >= 0 then ms else -ms, 12;
    LastDigits(magnitude, width);
    Powers();
    if ms < 0 {
      HexLength(magnitude, width - 1);
      if -ms < TWO44 {
        SignSurvives(ToHex(magnitude), width);
      } else {
        SignIsCut(ToHex(magnitude), width);
      }
    }
  }

  lemma {:induction false} Decoded(ms: int, randA: nat, raw: nat)
    requires randA < TWO12
    ensures Decode(Make(ms, randA, raw)) ==
            var ts := ParseHex(TimestampHex(ms));
            if ts.None? then None else Some(Fields(ts.value, 7, randA, 2, raw % TWO62))
  {
    var va, vb, wa, wb := VersionAndA(randA), VariantAndB(raw), 4, 16;
    Tags(randA, raw);
    MakeText(ms, randA, raw);
    DecodeParts(TimestampHex(ms), Fixed(va, wa), Fixed(vb, wb));
    ParseFixed(va, wa);
    ParseFixed(vb, wb);
    Powers();
    LowDigitsSmall(va, wa);
    LowDigitsSmall(vb, wb);
  }

  /** The text is a UUID unless the clock stands at a small time before 1970. */
  lemma {:induction false} WellFormedExactly(ms: int, randA: nat, raw: nat)
    requires randA < TWO12
    ensures Decode(Make(ms, randA, raw)) == None <==> ms < 0 && -ms < TWO44
  {
    Decoded(ms, randA, raw);
    TimestampDigits(ms);
  }

  /** Every field can be read back exactly for the timestamps of section 5.7: 48 bits, not negative. */
  lemma {:induction false} RoundTripExactly(ms: int, randA: nat, raw: nat)
    requires randA < TWO12
    ensures Decode(Make(ms, randA, raw)) == Some(Fields(ms, 7, randA, 2, raw % TWO62)) <==> 0 <= ms < TWO48
  {
    Decoded(ms, randA, raw);
    TimestampDigits(ms);
    Powers();
    if 0 <= ms < TWO48 {
      ModSmall(ms, TWO48);
    }
  }

  // ----- the order

  /** Hyphens at fixed places do not disturb the order. */
  lemma {:induction false} HyphenateOrder(g: string, h: string)
    requires |g| == |h| == 32
    ensures Less(Hyphenate(g), Hyphenate(h)) <==> Less(g, h)
  {
    InsertHyphen(g, h, 20);
    var g1, h1 := InsertAt(g, 20), InsertAt(h, 20);
    InsertHyphen(g1, h1, 16);
    var g2, h2 := InsertAt(g1, 16), InsertAt(h1, 16);
    InsertHyphen(g2, h2, 12);
    var g3, h3 := InsertAt(g2, 12), InsertAt(h2, 12);
    InsertHyphen(g3, h3, 8);
    FourHyphens(g);
    FourHyphens(h);
  }

  lemma {:induction false} FourHyphens(h: string)
    requires |h| == 32
    ensures InsertAt(InsertAt(InsertAt(InsertAt(h, 20), 16), 12), 8) == Hyphenate(h)
  {
    var h1 := InsertAt(h, 20);
    assert h1[..16] == h[..16] && h1[16..] == h[16..20] + "-" + h[20..];
    var h2 := InsertAt(h1, 16);
    assert h2[..12] == h[..12] && h2[12..] == h[12..16] + "-" + h1[16..];
    var h3 := InsertAt(h2, 12);
    assert h3[..8] == h[..8] && h3[8..] == h[8..12] + "-" + h2[12..];
    assert h[20..] == h[20..32];
  }

  function InsertAt(s: string, i: nat): string
    requires i <= |s|
  {
    s[..i] + ("-" + s[i..])
  }

  lemma {:induction false} InsertHyphen(g: string, h: string, i: nat)
    requires |g| == |h| && i <= |g|
    ensures Less(InsertAt(g, i), InsertAt(h, i)) <==> Less(g, h)
  {
    LessConcat(g[..i], h[..i], g[i..], h[i..]);
    LessConcat(g[..i], h[..i], "-" + g[i..], "-" + h[i..]);
    LessConcat("-", "-", g[i..], h[i..]);
    LessIrreflexive("-");
    assert g == g[..i] + g[i..] && h == h[..i] + h[i..];
  }

  /** Identifiers sort by timestamp, then by the first random field, then by the second. */
  lemma {:induction false} OrderExactly(ms: nat, randA: nat, raw: nat, ms': nat, randA': nat, raw': nat)
    requires ms < TWO48 && ms' < TWO48 && randA < TWO12 && randA' < TWO12
    ensures Less(Make(ms, randA, raw), Make(ms', randA', raw')) <==>
            ms < ms' || (ms == ms' && (randA < randA' || (randA == randA' && raw % TWO62 < raw' % TWO62)))
  {
    var wt, wa, wb := 12, 4, 16;
    var va, vb, va', vb' := VersionAndA(randA), VariantAndB(raw), VersionAndA(randA'), VariantAndB(raw');
    var t, a, b := Fixed(ms, wt), Fixed(va, wa), Fixed(vb, wb);
    var t', a', b' := Fixed(ms', wt), Fixed(va', wa), Fixed(vb', wb);
    assert Less(Make(ms, randA, raw), Make(ms', randA', raw')) <==> Less(t + a + b, t' + a' + b') by {
      MakeText(ms, randA, raw);
      MakeText(ms', randA', raw');
      HexIsFixed(ms, wt);
      HexIsFixed(ms', wt);
      HyphenateOrder(t + a + b, t' + a' + b');
    }
    LessConcat(t + a, t' + a', b, b');
    LessConcat(t, t', a, a');
    assert t + a == t' + a' <==> t == t' && a == a' by {
      assert (t + a)[..|t|] == t && (t + a)[|t|..] == a;
      assert (t' + a')[..|t|] == t' && (t' + a')[|t|..] == a';
    }
    Powers();
    FixedOrder(ms, ms', wt);
    Tags(randA, raw);
    Tags(randA', raw');
    FixedOrder(va, va', wa);
    FixedOrder(vb, vb', wb);
    TagVersion(randA);
    TagVersion(randA');
    TagVariant(raw);
    TagVariant(raw');
  }

  /** Past 48 bits the timestamp wraps round and the identifiers start again from the smallest. */
  lemma {:induction false} WrapsAfter48Bits(ms: nat, randA: nat, raw: nat)
    requires randA < TWO12
    ensures Make(ms, randA, raw) == Make(ms % TWO48, randA, raw)
  {
    var width := 12;
    HexIsFixed(ms, width);
    HexIsFixed(ms % TWO48, width);
    Powers();
    FixedLow(ms, width);
    LowDigitsIsMod(ms, width);
  }
}
