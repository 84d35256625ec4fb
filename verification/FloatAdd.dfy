/** Single precision addition and subtraction. */
module FloatAdd {
  import opened Rounding
  import opened Float32

  function SignedQuanta(x: word): int {
    if Negative(x) then -(Quanta(x) as int) else Quanta(x)
  }

  /** The sum the routine promises: exact, then rounded to nearest even. Opposite infinities sum
      to positive infinity and an exact cancellation is positive zero. */
  function Sum(x: word, y: word): word {
    if Infinite(x) && Infinite(y) then SignWord(Negative(x) && Negative(y)) + INFINITY
    else if Infinite(x) then SignWord(Negative(x)) + INFINITY
    else if Infinite(y) then SignWord(Negative(y)) + INFINITY
    else
      var s := SignedQuanta(x) + SignedQuanta(y);
      if s == 0 then SignWord(Negative(x) && Negative(y))
      else Round32(s < 0, Abs(s), 1)
  }

  // ---- Normalising and packing a 64-bit sum ----

  const Q56 := 0x100_0000 * WORD

  /** How far the normalisation loop shifts v. */
  function NormShift(v: nat): nat
    requires v > 0
    decreases Q56 - v
  {
    if v >= Q56 then 0 else 1 + NormShift(2 * v)
  }

  lemma {:induction false} NormShiftBound(v: nat, l: nat)
    requires v > 0 && v < 2 * Q56 && v * Pow2(l) >= Q56
    ensures NormShift(v) <= l
    ensures Q56 <= v * Pow2(NormShift(v)) < 2 * Q56
    decreases l
  {
    if v < Q56 {
      MulAssoc(v, 2, Pow2(l - 1));
      NormShiftBound(2 * v, l - 1);
      MulAssoc(v, 2, Pow2(NormShift(2 * v)));
    }
  }

  /** A normalised significand m with exponent field k + 1; below normal nothing is left. */
  function PackSum(k: int, m: nat): nat {
    if k >= 254 then INFINITY
    else if k >= 0 then k * HIDDEN_BIT + Rne(m, Pow2(33))
    else 0
  }

  function PackedSum(v: nat, e: int): nat
    requires v > 0
  {
    PackSum(e - NormShift(v), v * Pow2(NormShift(v)))
  }

  /** A sum of whole quanta never needs rounding when it is below normal. */
  lemma SumIsPacked(n: nat, v: nat, e: nat)
    requires 0 < v < 2 * Q56 && e >= 1 && n * WORD == v * Pow2(e - 1)
    ensures RoundFlush(n, 1, 24, 255) == PackedSum(v, e)
  {
    hide Pow2, NormShift, RoundPack;
    Pow2Values();
    Pow2Add(24, 32);
    NormShiftBound(v, 56) by { MulLe(1, v, Q56); }
    var l := NormShift(v);
    var m, k := v * Pow2(l), e - l;
    Pow2Add(32, l);
    assert n * Pow2(32 + l) == m * Pow2(e - 1) by {
      MulAssoc(n, WORD, Pow2(l));
      Swap(v, Pow2(e - 1), Pow2(l));
    }
    RoundPackScaled(n, 1, Pow2(32 + l), 24);
    Pow2Add(24, 33);
    RoundFlushAt(m, e - 1, 32 + l, 33, 24, 255);
    if k == -1 { NotAllOnes(n, m, e - 1); }
  }

  lemma NotAllOnes(n: nat, m: nat, s: nat)
    requires n * Pow2(34 + s) == m * Pow2(s)
    ensures m / Pow2(33) != Pow2(24) - 1
  {
    Pow2Add(34, s);
    MulAssoc(n, Pow2(34), Pow2(s));
    Cancel(n * Pow2(34), m, Pow2(s));
    assert Pow2(34) == 2 * Pow2(33);
    MulAssoc(n, 2, Pow2(33));
    DivModOf(2 * n, 0, Pow2(33));
    Pow2Values();
  }

  lemma Cancel(a: int, b: int, c: int)
    requires c > 0 && a * c == b * c
    ensures a == b
  {
    if a < b { MulLess(a, b, c); } else if b < a { MulLess(b, a, c); }
  }

  lemma Doubled(high: int, low: word)
    ensures (high * 2 + low / SIGN_BIT) * WORD + low * 2 % WORD == (high * WORD + low) * 2
  {
  }

  /** The loop at fa_3: shift r0:r2 up to a leading one in bit 24, counting down the exponent. */
  method Normalise(r0in: nat, r2in: word, r3in: int) returns (r0: nat, r2: word, r3: int)
    requires r0in < 0x200_0000 && r0in * WORD + r2in > 0
    ensures var v := r0in * WORD + r2in;
            r0 * WORD + r2 == v * Pow2(NormShift(v)) && r3 == r3in - NormShift(v)
    ensures 0x100_0000 <= r0 < 0x200_0000
  {
    r0, r2, r3 := r0in, r2in, r3in;
    ghost var v, l, w := r0in * WORD + r2in, 0, r0in * WORD + r2in;
    while r0 < 0x100_0000
      invariant r0 < 0x200_0000 && w == r0 * WORD + r2 && 0 < w
      invariant w == v * Pow2(l) && r3 == r3in - l && NormShift(v) == l + NormShift(w)
      decreases Q56 - w
    {
      MulAssoc(v, Pow2(l), 2);
      Doubled(r0, r2);
      var carry := r2 / SIGN_BIT;
      r2 := r2 * 2 % WORD;                    // adds
      r0 := r0 * 2 + carry;                   // adcs
      r3 := r3 - 1;                           // adjust exponent
      l, w := l + 1, w * 2;
    }
    assert w >= Q56;
  }

  lemma PackSumOf(k: int, high: nat, low: word)
    requires 0x100_0000 <= high < 0x200_0000
    ensures PackSum(k, high * WORD + low)
            == if k >= 254 then INFINITY
               else if k < 0 then 0
               else if high % 2 == 0 || (low == 0 && high / 2 % 2 == 0) then k * HIDDEN_BIT + high / 2
               else k * HIDDEN_BIT + high / 2 + 1
  {
    RoundSum(high, low);
  }

  /** From fa_2: the 25-bit significand r0 with sticky word r2, rounded to 24 bits. */
  method RoundSignificand(r0in: nat, r2: word) returns (r0: nat)
    ensures r0 == if r0in % 2 == 0 || (r2 == 0 && r0in / 2 % 2 == 0) then r0in / 2 else r0in / 2 + 1
  {
    r0 := r0in / 2;                           // lsrs #1
    if r0in % 2 == 1 {
      r0 := r0 + 1;                           // round up
      if r2 == 0 { r0 := r0 / 2 * 2; }        // sticky bits all zero
    }
  }

  /** From fa_2: round the significand r0:r2 and pack it with exponent r3 and sign bit r1. */
  method RoundAndPack(r0in: nat, r2: word, r3: int, r1: nat) returns (r0: word)
    requires 0x100_0000 <= r0in < 0x200_0000 && r1 < 2
    ensures r0 == r1 * SIGN_BIT + PackSum(r3, r0in * WORD + r2)
  {
    PackSumOf(r3, r0in, r2);
    var sum := RoundSignificand(r0in, r2);
    if r3 < 0 || r3 >= 254 {                  // cmp #254, bhs
      if r3 >= 254 {
        return (r1 * 256 + 255) * HIDDEN_BIT; // signed infinity
      }
      return r1 * SIGN_BIT;                   // signed zero
    }
    assert sum <= 0x100_0000;
    sum := sum + r1 * SIGN_BIT;               // pack everything
    r0 := sum + r3 * HIDDEN_BIT;
  }

  /** From fa_1: the sign of the 64-bit number r0:r2 and its magnitude. */
  method SplitSign(r0in: int, r2in: word) returns (r1: nat, r0: nat, r2: word)
    ensures r1 == (if r0in < 0 then 1 else 0) && r0 * WORD + r2 == Abs(r0in * WORD + r2in)
  {
    r1 := if r0in < 0 then 1 else 0;          // lsrs #31
    if r1 == 0 { return r1, r0in, r2in; }
    var high := -r0in - 1;                    // mvns
    r2 := (WORD - r2in) % WORD;               // rsbs
    if r2 == 0 { high := high + 1; }
    r0 := high;
  }

  /** From label fa_1 on: the sum is r0:r2 (r0 signed), its exponent r3. */
  method FinishSum(r0in: int, r2in: word, r3in: int) returns (r0: word)
    requires var v := r0in * WORD + r2in; -2 * Q56 < v < 2 * Q56 && v != 0
    ensures r0 == Packed(r0in * WORD + r2in, r3in)
  {
    var r1, high, r2 := SplitSign(r0in, r2in);
    var r3;
    high, r2, r3 := Normalise(high, r2, r3in);
    r0 := RoundAndPack(high, r2, r3, r1);
  }

  lemma RoundSum(high: nat, low: word)
    requires 0x100_0000 <= high < 0x200_0000
    ensures Rne(high * WORD + low, Pow2(33))
            == if high % 2 == 0 || (low == 0 && high / 2 % 2 == 0) then high / 2 else high / 2 + 1
  {
    Pow2Values();
    assert high * WORD + low == high / 2 * (2 * WORD) + (high % 2 * WORD + low);
    RneSplit(high / 2, high % 2 * WORD + low, 2 * WORD);
  }

  // ---- Aligning the operands ----

  /** The signed 24-bit significand of an operand, implied one included. */
  function Significand(x: word): int {
    if Negative(x) then -(HIDDEN_BIT + Fraction(x)) else HIDDEN_BIT + Fraction(x)
  }

  /** The exponent with zero and infinity pushed out of range, negative ones a little lower. */
  function WideExponent(x: word): int {
    var mask := if Negative(x) then -1 else 0;
    if Exponent(x) == 0 then -32 + mask
    else if Exponent(x) == 255 then 255 * 256 + mask
    else Exponent(x)
  }

  /** The 64-bit sum of a and b shifted down d places, both with 32 fraction bits. */
  function Aligned(a: int, b: int, d: nat): int {
    if d >= 30 then a * WORD else a * WORD + b * Pow2(32 - d)
  }

  /** The two registers an arithmetic shift right leaves hold the shifted value exactly. */
  lemma ShiftIsExact(b: int, d: nat)
    requires d <= 32
    ensures (b / Pow2(d)) * WORD + (b * Pow2(32 - d)) % WORD == b * Pow2(32 - d)
  {
    Pow2Values();
    Pow2Add(d, 32 - d);
    DivMod(b, Pow2(d));
    ShiftParts(b, b / Pow2(d), b % Pow2(d), Pow2(d), Pow2(32 - d));
  }

  lemma ShiftParts(b: int, q: int, r: int, g: nat, h: nat)
    requires g * h == WORD && 0 <= r < g && h > 0 && b == q * g + r
    ensures q * WORD + (b * h) % WORD == b * h
  {
    MulAssoc(q, g, h);
    MulLess(r, g, h);
    MulLe(0, r, h);
    ModWord(q, r * h);
    Distribute(q * g, r, h);
  }

  lemma ModWord(q: int, r: int)
    requires 0 <= r < WORD
    ensures (q * WORD + r) % WORD == r
  {
  }

  lemma AlignedBound(a: int, b: int, d: nat)
    requires -0x100_0000 < a < 0x100_0000 && -0x100_0000 < b < 0x100_0000
    ensures -2 * Q56 < Aligned(a, b, d) < 2 * Q56
  {
    if d < 30 {
      Pow2Values();
      Pow2Mono(32 - d, 32);
      var h := Pow2(32 - d);
      MulLe(b, 0xff_ffff, h);
      MulLe(-0xff_ffff, b, h);
    }
  }

  /** A sum can cancel only when the exponents are equal. */
  lemma AlignedSign(a: int, b: int, d: nat)
    requires HIDDEN_BIT <= Abs(a) < 2 * HIDDEN_BIT && HIDDEN_BIT <= Abs(b) < 2 * HIDDEN_BIT
    ensures d > 0 ==> Aligned(a, b, d) != 0 && (Aligned(a, b, d) < 0 <==> a < 0)
    ensures d == 0 ==> Aligned(a, b, d) == (a + b) * WORD
  {
    Pow2Values();
    if 0 < d < 30 {
      var h := Pow2(32 - d);
      Pow2Mono(32 - d, 31);
      assert Pow2(32) == 2 * Pow2(31);
      MulLess(b, 2 * HIDDEN_BIT, h);
      MulLess(-2 * HIDDEN_BIT, b, h);
    }
  }

  // ---- Operands too far apart ----

  /** A value within a quarter of x's gap of x rounds to x. */
  lemma NearbyIsRounded(x: word, n: nat)
    requires 1 < Exponent(x) < 255 && 4 * Abs(n - Quanta(x)) < Pow2(Exponent(x) - 1)
    ensures RoundPack(n, 1, 24) == Magnitude(x)
  {
    Pow2Values();
    QuantaOf(x);
    NearbyRoundsBack(Exponent(x) - 1, HIDDEN_BIT + Fraction(x), 24, n);
    Fields(x);
  }

  lemma FarQuanta(x: word, y: word)
    requires 0 < Exponent(y) && Exponent(y) + 30 <= Exponent(x) < 255
    ensures 4 * Quanta(y) < Pow2(Exponent(x) - 1)
  {
    Pow2Values();
    QuantaOf(y);
    var e := Exponent(y) - 1;
    MulLess(HIDDEN_BIT + Fraction(y), Pow2(24), Pow2(e));
    Pow2Add(24, e);
    Pow2Mono(24 + e + 2, Exponent(x) - 1);
    assert Pow2(24 + e + 2) == 2 * Pow2(24 + e + 1);
  }

  // ---- The whole routine ----

  lemma SignificandBounds(x: word)
    ensures HIDDEN_BIT <= Abs(Significand(x)) < 2 * HIDDEN_BIT && (Significand(x) < 0 <==> Negative(x))
  {
  }

  lemma SignedQuantaOf(x: word)
    requires 0 < Exponent(x) < 255
    ensures SignedQuanta(x) == Significand(x) * Pow2(Exponent(x) - 1)
  {
    QuantaOf(x);
    Negate(HIDDEN_BIT + Fraction(x), Pow2(Exponent(x) - 1));
  }

  /** Two normal operands close enough to be aligned exactly. */
  lemma CloseSum(x: word, y: word)
    requires 0 < Exponent(y) <= Exponent(x) < 255 && Exponent(x) < Exponent(y) + 30
    ensures (SignedQuanta(x) + SignedQuanta(y)) * WORD
            == Aligned(Significand(x), Significand(y), Exponent(x) - Exponent(y)) * Pow2(Exponent(x) - 1)
  {
    hide SignedQuanta, Significand, Pow2;
    var a, b, e, f := Significand(x), Significand(y), Exponent(x) - 1, Exponent(y) - 1;
    var d := e - f;
    SignedQuantaOf(x);
    SignedQuantaOf(y);
    Pow2Values();
    Pow2Add(32 - d, e);
    Pow2Add(32, f);
    Distribute4(a, WORD, b, Pow2(32 - d), Pow2(e));
    MulAssoc(b, Pow2(32), Pow2(f));
    Distribute4(a, Pow2(e), b, Pow2(f), WORD);
  }

  lemma Distribute4(a: int, w: int, b: int, h: int, p: int)
    ensures (a * w + b * h) * p == a * (w * p) + b * (h * p)
  {
    MulAssoc(a, w, p);
    MulAssoc(b, h, p);
  }

  /** Packing the aligned sum v, whose exponent is e. */
  function Packed(v: int, e: int): int {
    if v == 0 then 0 else SignWord(v < 0) + PackedSum(Abs(v), e)
  }

  /** A finite sum whose exact value is v * 2^(e - 1) / 2^32 quanta. */
  lemma ExactSum(s: int, v: int, e: nat)
    requires e >= 1 && -2 * Q56 < v < 2 * Q56 && s * WORD == v * Pow2(e - 1)
    ensures Packed(v, e) == if s == 0 then 0 else Round32(s < 0, Abs(s), 1)
  {
    SameSign(s, v, WORD, Pow2(e - 1));
    if v != 0 { SumIsPacked(Abs(s), Abs(v), e); }
  }

  lemma WideBounds(v: int, e: int)
    requires -2 * Q56 < v < 2 * Q56 && v != 0
    ensures e >= 65000 ==> Packed(v, e) == SignWord(v < 0) + INFINITY
    ensures e < 0 ==> Packed(v, e) == SignWord(v < 0)
  {
    Pow2Values();
    Pow2Add(24, 32);
    NormShiftBound(Abs(v), 56) by { MulLe(1, Abs(v), Q56); }
  }

  /** An operand 30 or more binades down cannot change the result. */
  lemma SmallerIsLost(x: word, y: word)
    requires 0 < Exponent(y) && Exponent(y) + 30 <= Exponent(x) < 255
    ensures var s := SignedQuanta(x) + SignedQuanta(y);
            s != 0 && (s < 0 <==> SignedQuanta(x) < 0) && Round32(s < 0, Abs(s), 1) == Round32(s < 0, Quanta(x), 1)
  {
    FarQuanta(x, y);
    QuantaOf(x);
    MulLe(1, HIDDEN_BIT + Fraction(x), Pow2(Exponent(x) - 1));
    NearbyIsRounded(x, Abs(SignedQuanta(x) + SignedQuanta(y)));
    NearbyIsRounded(x, Quanta(x));
  }

  lemma LargerWins(x: word, y: word)
    requires 0 < Exponent(x) < 255 && WideExponent(x) >= WideExponent(y) + 30
    ensures Sum(x, y) == Packed(Significand(x) * WORD, Exponent(x))
  {
    SignedQuantaOf(x);
    Swap(Significand(x), Pow2(Exponent(x) - 1), WORD);
    SignificandBounds(x);
    ExactSum(SignedQuanta(x), Significand(x) * WORD, Exponent(x));
    SameSign(SignedQuanta(x), Significand(x) * WORD, WORD, Pow2(Exponent(x) - 1));
    if Exponent(y) != 0 { SmallerIsLost(x, y); }
  }

  /** For every pair of operands, aligning by the wide exponents and packing gives the sum. */
  lemma SumIsPackedAligned(x: word, y: word)
    requires WideExponent(x) >= WideExponent(y)
    ensures Sum(x, y) ==
            Packed(Aligned(Significand(x), Significand(y), WideExponent(x) - WideExponent(y)), WideExponent(x))
  {
    hide Packed, Round32, Val;
    var a, b, d := Significand(x), Significand(y), WideExponent(x) - WideExponent(y);
    SignificandBounds(x);
    SignificandBounds(y);
    AlignedBound(a, b, d);
    AlignedSign(a, b, d);
    var v := Aligned(a, b, d);
    if Infinite(x) {
      WideBounds(v, WideExponent(x));
    } else if Exponent(x) == 0 {
      WideBounds(v, WideExponent(x));
    } else if d >= 30 {
      LargerWins(x, y);
    } else {
      CloseSum(x, y);
      ExactSum(SignedQuanta(x) + SignedQuanta(y), v, Exponent(x));
    }
  }

  lemma SumCommutes(x: word, y: word)
    ensures Sum(x, y) == Sum(y, x)
  {
  }

  /** asrs #31 and the exponent field, with the out-of-range cases pushed away. */
  method UnpackExponent(x: word) returns (mask: int, e: int)
    ensures mask == (if Negative(x) then -1 else 0) && e == WideExponent(x)
  {
    mask := if x >= SIGN_BIT then -1 else 0;  // asrs #31
    e := (x * 2 % WORD) / 0x100_0000;         // lsls #1, lsrs #24
    ExponentField(x);
    if e == 0 {
      e := e - 32;
      e := e + mask;
    } else if e == 255 {
      e := e * 256;
      e := e + mask;
    }
  }

  lemma ExponentField(x: word)
    ensures (x * 2 % WORD) / 0x100_0000 == Exponent(x)
  {
    var s, e, f := x / SIGN_BIT, Exponent(x), Fraction(x);
    assert x == s * SIGN_BIT + e * HIDDEN_BIT + f && s < 2;
    assert x * 2 % WORD == e * 0x100_0000 + 2 * f;
  }

  /** The two alignment paths, here for operand a with the larger exponent e and b that is d
      binades below: the routine has one copy for each order of its operands. */
  method AlignAndFinish(a: int, b: int, d: nat, e: int) returns (r0: word)
    requires HIDDEN_BIT <= Abs(a) < 2 * HIDDEN_BIT && HIDDEN_BIT <= Abs(b) < 2 * HIDDEN_BIT
    ensures r0 == Packed(Aligned(a, b, d), e)
  {
    AlignedBound(a, b, d);
    AlignedSign(a, b, d);
    if d >= 30 {
      r0 := FinishSum(a, 0, e);               // result is just the larger
      return;
    }
    ShiftIsExact(b, d);
    var low := b * Pow2(32 - d) % WORD;       // lsls: keep the bits shifted off the bottom
    var high := b / Pow2(d);                  // asrs
    high := a + high;
    assert high * WORD + low == Aligned(a, b, d);
    if high == 0 && low == 0 { return 0; }    // identical magnitudes, opposite signs
    r0 := FinishSum(high, low, e);
  }

  /** mufp_fadd, register by register; the significand registers are read as signed. */
  method Fadd(x: word, y: word) returns (r0: word)
    ensures r0 == Sum(x, y)
  {
    hide Sum, Packed, Aligned, WideExponent;
    SignificandBounds(x);
    SignificandBounds(y);
    var r4, r2 := UnpackExponent(x);
    var r5, r3 := UnpackExponent(y);
    var a := x % HIDDEN_BIT + HIDDEN_BIT;     // ands, orrs: mantissa with implied 1
    var b := y % HIDDEN_BIT + HIDDEN_BIT;
    if r4 == -1 { a := -a; }                  // eors, subs: complement if negative
    if r5 == -1 { b := -b; }
    r5 := r3 - r2;
    r4 := r2 - r3;
    if r4 >= 0 {                              // bmi
      SumIsPackedAligned(x, y);
      r0 := AlignAndFinish(a, b, r4, r2);
    } else {
      SumIsPackedAligned(y, x);
      SumCommutes(x, y);
      r0 := AlignAndFinish(b, a, r5, r3);
    }
  }

  lemma Flipped(y: word)
    ensures (y + SIGN_BIT) % WORD == if Negative(y) then y - SIGN_BIT else y + SIGN_BIT
  {
  }

  /** mufp_fsub flips the sign of its second operand and falls into mufp_fadd. */
  method Fsub(x: word, y: word) returns (r0: word)
    ensures r0 == Sum(x, if Negative(y) then y - SIGN_BIT else y + SIGN_BIT)
  {
    Flipped(y);
    var r1 := (y + SIGN_BIT) % WORD;          // eors with the sign bit
    r0 := Fadd(x, r1);
  }

  // ---- Laws of the sum ----

  /** Adding either zero gives back a normal number. */
  lemma SumWithZero(x: word)
    requires 0 < Exponent(x) < 255
    ensures Sum(x, 0) == Sum(x, 0x8000_0000) == x
  {
    hide Quanta, Round32;
    assert Quanta(0) == Quanta(0x8000_0000) == 0 by { NoQuanta(); }
    ValuePositive(x);
    OwnWord(x);
  }

  lemma NoQuanta()
    ensures Quanta(0) == Quanta(0x8000_0000) == 0
  {
  }

  /** What is neither of those: opposite numbers cancel to positive zero, opposite infinities give
      positive infinity, and an infinity swallows anything finite. */
  lemma SumExtremes(x: word, y: word)
    ensures x < 0x7f80_0000 && y == x + 0x8000_0000 ==> Sum(x, y) == Sum(y, x) == 0
    ensures Sum(0x7f80_0000, 0xff80_0000) == 0x7f80_0000 && Sum(0xff80_0000, 0xff80_0000) == 0xff80_0000
    ensures x < 0x7f80_0000 ==> Sum(0x7f80_0000, x) == 0x7f80_0000 && Sum(x, 0xff80_0000) == 0xff80_0000
  {
    hide Val, Round32;
  }
}
