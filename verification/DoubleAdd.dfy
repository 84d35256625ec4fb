/** Double precision addition and subtraction. */
module DoubleAdd {
  import opened Rounding
  import opened Float64
  import DoubleMul
  import FloatAdd

  function SignedQuanta(x: double): int {
    if Negative(x) then -(Quanta(x) as int) else Quanta(x)
  }

  /** The sum the routine promises: exact, then rounded to nearest even. Opposite infinities sum
      to positive infinity and an exact cancellation is positive zero. */
  function Sum(x: double, y: double): double {
    if Infinite(x) && Infinite(y) then SignBit(Negative(x) && Negative(y)) + INFINITY
    else if Infinite(x) then SignBit(Negative(x)) + INFINITY
    else if Infinite(y) then SignBit(Negative(y)) + INFINITY
    else
      var s := SignedQuanta(x) + SignedQuanta(y);
      if s == 0 then SignBit(Negative(x) && Negative(y))
      else Round64(s < 0, Abs(s), 1)
  }

  // ---- A 96-bit sum with sticky bits, normalised and packed ----

  const X28 := 0x1000_0000
  const Q84 := 0x10_0000_0000_0000_0000_0000

  lemma Powers()
    ensures Pow2(28) == X28 && Pow2(84) == Q84 && Pow2(60) == Pow2(32) * Pow2(28) && Pow2(61) == Pow2(33) * Pow2(28)
    ensures Pow2(112) == Q84 * X28 && Pow2(113) == 2 * Q84 * X28 && Pow2(114) == 4 * Q84 * X28
  {
    hide Pow2;
    Pow2Values();
    Pow2Add(32, 52);
    Pow2Add(32, 28);
    Pow2Add(33, 28);
    Pow2Add(84, 28);
    Pow2Add(24, 4);
    SmallPowers();
    Pow2Add(112, 1);
    Pow2Add(112, 2);
  }

  lemma SmallPowers()
    ensures Pow2(1) == 2 && Pow2(2) == 4 && Pow2(4) == 16
  {
  }

  /** How far the normalisation loop shifts v. */
  function NormShift(v: nat): nat
    requires v > 0
    decreases Q84 - v
  {
    if v >= Q84 then 0 else 1 + NormShift(2 * v)
  }

  lemma {:induction false} NormShiftBound(v: nat, l: nat)
    requires 0 < v < 2 * Q84 && v * Pow2(l) >= Q84
    ensures NormShift(v) <= l
    ensures Q84 <= v * Pow2(NormShift(v)) < 2 * Q84
    decreases l
  {
    if v < Q84 {
      MulAssoc(v, 2, Pow2(l - 1));
      NormShiftBound(2 * v, l - 1);
      MulAssoc(v, 2, Pow2(NormShift(2 * v)));
    }
  }

  /** A rounded significand q with exponent field k + 1; below normal nothing is left. */
  function PackRounded(k: int, q: nat): nat {
    if k >= 2046 then INFINITY else if k >= 0 then k * HIDDEN_BIT + q else 0
  }

  function PackSum(v: nat, e: int): nat
    requires v > 0
  {
    if v >= 2 * Q84 then PackRounded(e, Rne(v, Pow2(33)))
    else PackRounded(e - 1 - NormShift(v), Rne(v * Pow2(NormShift(v)), Pow2(32)))
  }

  /** What the routine keeps of a sum a with 28 more bits: all of it, or for operands far apart an
      odd number next to it. */
  predicate Approximates(a: nat, v: nat) {
    || a == v * 0x1000_0000
    || (v % 2 == 1 && (v - 1) * 0x1000_0000 < a < (v + 1) * 0x1000_0000 && v > Q84 / 2)
  }

  lemma StaysNear(a: nat, v: nat, t: nat, g: nat)
    requires v % 2 == 1 && (v - 1) * 0x1000_0000 < a < (v + 1) * 0x1000_0000 && t % 2 == 0 && g % 4 == 0
    requires 2 * Abs(v - t) <= g
    ensures 2 * Abs(a - t * 0x1000_0000) < g * 0x1000_0000
  {
    assert 2 * Abs(v - t) <= g - 2;
  }

  /** An odd number rounds like everything next to it, on any coarser grid. */
  lemma StickyRne(a: nat, v: nat, h: nat)
    requires v % 2 == 1 && (v - 1) * 0x1000_0000 < a < (v + 1) * 0x1000_0000 && h > 0
    ensures Rne(v, 4 * h) == Rne(a, 4 * h * 0x1000_0000)
  {
    hide Rne;
    var g := 4 * h;
    var q, d := Rne(v, g), g * 0x1000_0000;
    RneIsNearest(v, g);
    RneIsNearest(a, d);
    EvenGrid(q, h);
    MulAssoc(q, g, 0x1000_0000);
    StaysNear(a, v, q * g, g);
    NearestIsUnique(a, d, q, Rne(a, d));
  }

  lemma EvenGrid(q: nat, h: nat)
    ensures q * (4 * h) % 2 == 0
  {
    MulAssoc(q, 2, 2 * h);
    assert q * (4 * h) == 2 * (q * (2 * h)) by { Rearrange(q, 2, 2 * h); MulAssoc(2, q, 2 * h); }
  }

  /** Rounding the approximation after normalisation by l places. */
  lemma ApproximationRounds(a: nat, v: nat, l: nat)
    requires Approximates(a, v) && (a == v * 0x1000_0000 || l <= 1)
    ensures Rne(v * Pow2(l), Pow2(32)) == Rne(a * Pow2(l), Pow2(60))
  {
    if a == v * 0x1000_0000 {
      ExactRounds(v, l);
    } else {
      StickyRounds(a, v, l);
    }
  }

  lemma ExactRounds(v: nat, l: nat)
    ensures Rne(v * Pow2(l), Pow2(32)) == Rne(v * 0x1000_0000 * Pow2(l), Pow2(60))
  {
    hide Rne, Pow2;
    Powers();
    RneScaled(v * Pow2(l), Pow2(32), Pow2(28));
    Commute(v, Pow2(l));
  }

  lemma StickyRounds(a: nat, v: nat, l: nat)
    requires v % 2 == 1 && (v - 1) * 0x1000_0000 < a < (v + 1) * 0x1000_0000 && l <= 1
    ensures Rne(v * Pow2(l), Pow2(32)) == Rne(a * Pow2(l), Pow2(60))
  {
    var g := if l == 0 then 0x4000_0000 else 0x2000_0000;
    assert Pow2(l) == if l == 0 then 1 else 2;
    hide Rne, Pow2;
    Powers();
    Pow2Values();
    StickyRne(a, v, g);
    RneScaled(v, 4 * g, Pow2(l));
    RneScaled(a, 4 * g * 0x1000_0000, Pow2(l));
  }

  lemma ApproximationRoundsDown(a: nat, v: nat)
    requires Approximates(a, v)
    ensures Rne(v, Pow2(33)) == Rne(a, Pow2(61))
  {
    hide Rne;
    Powers();
    Pow2Values();
    if a == v * 0x1000_0000 {
      RneScaled(v, Pow2(33), Pow2(28));
    } else {
      StickyRne(a, v, 0x8000_0000);
    }
  }

  /** The approximation is normalised where the sum is. */
  lemma ApproximationNormalises(a: nat, v: nat, l: nat)
    requires Approximates(a, v) && 0 < v < 2 * Q84 && l == NormShift(v)
    ensures a == v * 0x1000_0000 || l <= 1
    ensures Pow2(112) <= a * Pow2(l) < Pow2(113)
  {
    assert Pow2(0) == 1 && Pow2(1) == 2;
    hide Pow2, NormShift;
    Powers();
    if a == v * 0x1000_0000 {
      NormShiftBound(v, 84) by { MulLe(1, v, Pow2(84)); }
      Commute(v, Pow2(l));
    } else {
      NormShiftBound(v, 1);
    }
  }

  lemma Commute(v: nat, w: nat)
    ensures v * 0x1000_0000 * w == v * w * 0x1000_0000
  {
    Rearrange(v, 0x1000_0000, w);
    MulAssoc(v, w, 0x1000_0000);
  }

  lemma FlushScaled(n: nat, d: nat, c: nat)
    requires d > 0 && c > 0
    ensures d * c > 0 && RoundFlush(n * c, d * c, 53, 2047) == RoundFlush(n, d, 53, 2047)
  {
    hide RoundPack;
    RoundPackScaled(n, d, c, 53);
  }

  lemma PackAtIs(k: int, m: nat, j: nat)
    requires k != -1 || m / Pow2(j) != Pow2(53) - 1
    ensures PackAt(k, m, j, 53, 2047) == PackRounded(k, Rne(m, Pow2(j)))
  {
    hide Rne;
    Pow2Values();
  }

  /** Packing the approximation gives the rounded sum of s quanta, of which nothing is lost when it
      is below normal. */
  lemma SumIsPacked(s: nat, a: nat, v: nat, e: nat)
    requires 0 < v < 4 * Q84 && e >= 1 && Approximates(a, v) && s * Pow2(60) == a * Pow2(e - 1)
    ensures RoundFlush(s, 1, 53, 2047) == PackSum(v, e)
  {
    hide Pow2, Rne, RoundFlush, NormShift, Approximates, PackAt, PackRounded;
    FlushScaled(s, 1, Pow2(60));
    if v >= 2 * Q84 {
      BigSum(a, v);
      RoundFlushAt(a, e - 1, 60, 61, 53, 2047);
      PackAtIs(e, a, 61);
      ApproximationRoundsDown(a, v);
    } else {
      NormalisedSum(s, a, v, e, NormShift(v));
    }
  }

  lemma NormalisedSum(s: nat, a: nat, v: nat, e: nat, l: nat)
    requires 0 < v < 2 * Q84 && e >= 1 && Approximates(a, v) && s * Pow2(60) == a * Pow2(e - 1) && l == NormShift(v)
    ensures RoundFlush(a * Pow2(e - 1), Pow2(60), 53, 2047) == PackRounded(e - 1 - l, Rne(v * Pow2(l), Pow2(32)))
  {
    hide Pow2, Rne, RoundFlush, NormShift, Approximates, PackAt, PackRounded;
    ApproximationNormalises(a, v, l);
    ApproximationRounds(a, v, l);
    FlushScaled(a * Pow2(e - 1), Pow2(60), Pow2(l));
    Swap(a, Pow2(e - 1), Pow2(l));
    Pow2Add(60, l);
    RoundFlushAt(a * Pow2(l), e - 1, 60 + l, 60, 53, 2047);
    if l == e {
      DoubleOf(s, a, e);
      NotAllOnes(s, a * Pow2(l));
    }
    PackAtIs(e - 1 - l, a * Pow2(l), 60);
  }

  lemma BigSum(a: nat, v: nat)
    requires 2 * Q84 <= v < 4 * Q84 && Approximates(a, v)
    ensures Pow2(113) <= a < Pow2(114)
  {
    Powers();
  }

  lemma DoubleOf(s: nat, a: nat, e: nat)
    requires e >= 1 && s * Pow2(60) == a * Pow2(e - 1)
    ensures s * Pow2(61) == a * Pow2(e)
  {
    assert Pow2(61) == 2 * Pow2(60) && Pow2(e) == 2 * Pow2(e - 1);
    MulAssoc(s, 2, Pow2(60));
    MulAssoc(a, 2, Pow2(e - 1));
    MulAssoc(2, s, Pow2(60));
    MulAssoc(2, a, Pow2(e - 1));
  }

  lemma NotAllOnes(s: nat, m: nat)
    requires s * Pow2(61) == m
    ensures m / Pow2(60) != Pow2(53) - 1
  {
    MulAssoc(s, 2, Pow2(60));
    DivModOf(2 * s, 0, Pow2(60));
    Pow2Values();
  }

  // ---- Aligning the operands ----

  /** The signed 53-bit significand, implied one included; zero and infinity have one of one. */
  function Significand(x: double): int {
    if Negative(x) then -(DoubleMul.Significand(x) as int) else DoubleMul.Significand(x)
  }

  /** The exponent with zero and infinity pushed out of range, negative infinity a little lower. */
  function WideExponent(x: double): int {
    if Exponent(x) == 0 then -0x8_0000
    else if Exponent(x) == 2047 then if Negative(x) then 0x77_e000 else 0x77_f000
    else Exponent(x)
  }

  /** b / g rounded down, its last bit set if anything has been lost. */
  function Sticky(b: int, g: nat): int
    requires g > 0
  {
    if b % g == 0 || b / g % 2 == 1 then b / g else b / g + 1
  }

  /** What the registers hold of the sum of a and b shifted down d places, with 32 fraction bits. */
  function Aligned(a: int, b: int, d: nat): int {
    if d >= 60 then a * WORD
    else if d <= 32 then a * WORD + b * Pow2(32 - d)
    else a * WORD + Sticky(b, Pow2(d - 32))
  }

  /** Packing the aligned sum v, whose exponent is e. */
  function Packed(v: int, e: int): int {
    if v == 0 then 0 else SignBit(v < 0) + PackSum(Abs(v), e)
  }

  /** Approximates, for sums of either sign. */
  predicate Near(a: int, v: int) {
    || a == v * 0x1000_0000
    || (v % 2 == 1 && (v - 1) * 0x1000_0000 < a < (v + 1) * 0x1000_0000 && Abs(v) > Q84 / 2)
  }

  /** A finite sum of s quanta, of which a is the exact significand and v what is kept of it. */
  lemma ExactSum(s: int, a: int, v: int, e: nat)
    requires e >= 1 && -4 * Q84 < v < 4 * Q84 && Near(a, v) && s * Pow2(60) == a * Pow2(e - 1)
    ensures Packed(v, e) == if s == 0 then 0 else Round64(s < 0, Abs(s), 1)
  {
    hide Pow2, PackSum, RoundFlush;
    SameSign(s, a, Pow2(60), Pow2(e - 1));
    assert v == 0 <==> a == 0;
    assert v < 0 <==> a < 0;
    if v != 0 {
      assert Approximates(Abs(a), Abs(v));
      SumIsPacked(Abs(s), Abs(a), Abs(v), e);
    }
  }

  lemma SignificandBounds(x: double)
    ensures HIDDEN_BIT <= Abs(Significand(x)) < 2 * HIDDEN_BIT && (Significand(x) < 0 <==> Negative(x))
  {
  }

  lemma SignedQuantaOf(x: double)
    requires 0 < Exponent(x) < 2047
    ensures SignedQuanta(x) == Significand(x) * Pow2(Exponent(x) - 1)
  {
    QuantaOf(x);
    Negate(HIDDEN_BIT + Fraction(x), Pow2(Exponent(x) - 1));
  }

  lemma StickyMeans(b: int, g: nat)
    requires g > 0
    ensures b % g == 0 ==> Sticky(b, g) * g == b
    ensures b % g != 0 ==> Sticky(b, g) % 2 == 1 && (Sticky(b, g) - 1) * g < b < (Sticky(b, g) + 1) * g
  {
    var q := b / g;
    DivMod(b, g);
    MulStep(q, g);
    MulStep(q - 1, g);
    MulStep(q + 1, g);
  }

  lemma StickyBounds(b: int, g: nat)
    requires g > 0
    ensures -(Abs(b) as int) <= Sticky(b, g) <= Abs(b) + 1
  {
    DivMod(b, g);
    QuotientBounds(b, b / g, b % g, g);
  }

  lemma QuotientBounds(b: int, q: int, r: int, g: nat)
    requires g > 0 && b == q * g + r && 0 <= r < g
    ensures b < 0 ==> b <= q <= 0
    ensures b >= 0 ==> 0 <= q <= b
  {
    MulStep(q, g);
    if q < 0 { MulLe(q, -1, g); } else { MulLe(1, g, q); }
    if b < 0 && q < b {
      MulLe(q + 1, b, g);
      MulLe(1, g, -b);
      Negate(b, g);
    }
  }

  lemma ShiftedBounds(b: int, d: nat)
    requires Abs(b) < 2 * HIDDEN_BIT && d <= 32
    ensures Abs(b * Pow2(32 - d)) < 2 * HIDDEN_BIT * WORD && (d > 0 ==> Abs(b * Pow2(32 - d)) < HIDDEN_BIT * WORD)
  {
    Pow2Values();
    Pow2Mono(32 - d, if d > 0 then 31 else 32);
    assert Pow2(32) == 2 * Pow2(31);
    BoundedProduct(b, 2 * HIDDEN_BIT, Pow2(32 - d), if d > 0 then 0x8000_0000 else WORD);
  }

  lemma BoundedProduct(b: int, m: nat, h: nat, n: nat)
    requires Abs(b) < m && 0 < h <= n
    ensures Abs(b * h) < m * n
  {
    MulLess(b, m, h);
    MulLess(-(m as int), b, h);
    Negate(m, h);
    MulLe(h, n, m);
  }

  lemma AlignedBound(a: int, b: int, d: nat)
    requires Abs(a) < 2 * HIDDEN_BIT && Abs(b) < 2 * HIDDEN_BIT
    ensures -4 * Q84 < Aligned(a, b, d) < 4 * Q84
  {
    hide Sticky, Pow2;
    if d <= 32 {
      ShiftedBounds(b, d);
    } else if d < 60 {
      StickyBounds(b, Pow2(d - 32));
    }
  }

  /** A sum can cancel only when the exponents are equal. */
  lemma AlignedSign(a: int, b: int, d: nat)
    requires HIDDEN_BIT <= Abs(a) < 2 * HIDDEN_BIT && HIDDEN_BIT <= Abs(b) < 2 * HIDDEN_BIT
    ensures d > 0 ==> Aligned(a, b, d) != 0 && (Aligned(a, b, d) < 0 <==> a < 0)
    ensures d == 0 ==> Aligned(a, b, d) == (a + b) * WORD
  {
    hide Sticky, Pow2;
    Pow2Values();
    if 0 < d <= 32 {
      ShiftedBounds(b, d);
    } else if 32 < d < 60 {
      StickyBounds(b, Pow2(d - 32));
    }
  }

  // ---- Operands far apart and close together ----

  lemma NearbyIsRounded(x: double, n: nat)
    requires 1 < Exponent(x) < 2047 && 4 * Abs(n - Quanta(x)) < Pow2(Exponent(x) - 1)
    ensures RoundPack(n, 1, 53) == Magnitude(x)
  {
    hide RoundPack, Pow2;
    Pow2Values();
    QuantaOf(x);
    NearbyRoundsBack(Exponent(x) - 1, HIDDEN_BIT + Fraction(x), 53, n);
    Fields(x);
  }

  lemma FarQuanta(x: double, y: double)
    requires 0 < Exponent(y) && Exponent(y) + 60 <= Exponent(x) < 2047
    ensures 4 * Quanta(y) < Pow2(Exponent(x) - 1)
  {
    hide Pow2;
    Pow2Values();
    QuantaOf(y);
    var e := Exponent(y) - 1;
    MulLess(HIDDEN_BIT + Fraction(y), Pow2(53), Pow2(e));
    Pow2Add(53, e);
    Pow2Mono(53 + e + 2, Exponent(x) - 1);
    Pow2Add(2, 53 + e);
    SmallPowers();
  }

  /** An operand 60 or more binades down cannot change the result. */
  lemma SmallerIsLost(x: double, y: double)
    requires 0 < Exponent(y) && Exponent(y) + 60 <= Exponent(x) < 2047
    ensures var s := SignedQuanta(x) + SignedQuanta(y);
            s != 0 && (s < 0 <==> SignedQuanta(x) < 0) && Round64(s < 0, Abs(s), 1) == Round64(s < 0, Quanta(x), 1)
  {
    hide Pow2, RoundPack, Quanta;
    FarQuanta(x, y);
    QuantaOf(x);
    MulLe(1, HIDDEN_BIT + Fraction(x), Pow2(Exponent(x) - 1));
    NearbyIsRounded(x, Abs(SignedQuanta(x) + SignedQuanta(y)));
    NearbyIsRounded(x, Quanta(x));
  }

  lemma LargerWins(x: double, y: double)
    requires 0 < Exponent(x) < 2047 && WideExponent(x) >= WideExponent(y) + 60
    ensures Sum(x, y) == Packed(Significand(x) * WORD, Exponent(x))
  {
    hide Pow2, PackSum, Round64, Packed, Significand;
    var a := Significand(x);
    SignedQuantaOf(x);
    SignificandBounds(x);
    AloneIsExact(a, Exponent(x), SignedQuanta(x));
    ExactSum(SignedQuanta(x), a * WORD * X28, a * WORD, Exponent(x));
    SameSign(SignedQuanta(x), a, 1, Pow2(Exponent(x) - 1));
    if Exponent(y) != 0 { SmallerIsLost(x, y); }
  }

  lemma AloneIsExact(a: int, e: nat, s: int)
    requires e >= 1 && s == a * Pow2(e - 1)
    ensures s * Pow2(60) == a * WORD * X28 * Pow2(e - 1)
  {
    hide Pow2;
    Powers();
    Pow2Values();
    Rearrange(a, Pow2(e - 1), Pow2(60));
    MulAssoc(a, Pow2(60), Pow2(e - 1));
    MulAssoc(a, WORD, X28);
  }

  /** Two normal operands less than 60 binades apart: what is kept of their exact sum. */
  lemma CloseSum(x: double, y: double)
    requires 0 < Exponent(y) <= Exponent(x) < 2047 && Exponent(x) < Exponent(y) + 60
    ensures var a, b, d := Significand(x), Significand(y), Exponent(x) - Exponent(y);
            && (SignedQuanta(x) + SignedQuanta(y)) * Pow2(60)
               == (a * Pow2(60) + b * Pow2(60 - d)) * Pow2(Exponent(x) - 1)
            && Near(a * Pow2(60) + b * Pow2(60 - d), Aligned(a, b, d))
  {
    hide SignedQuanta, Significand, Pow2, Near, Aligned;
    var a, b, e, f := Significand(x), Significand(y), Exponent(x) - 1, Exponent(y) - 1;
    var d := e - f;
    SignedQuantaOf(x);
    SignedQuantaOf(y);
    Pow2Add(60 - d, e);
    Pow2Add(60, f);
    Combined(a, b, Pow2(e), Pow2(f), Pow2(60), Pow2(60 - d));
    SignificandBounds(x);
    SignificandBounds(y);
    AlignedIsNear(a, b, d);
  }

  lemma Combined(a: int, b: int, p: int, q: int, w: int, h: int)
    requires h * p == w * q
    ensures (a * p + b * q) * w == (a * w + b * h) * p
  {
    Distribute4(a, w, b, h, p);
    Distribute4(a, p, b, q, w);
  }

  lemma Distribute4(a: int, w: int, b: int, h: int, p: int)
    ensures (a * w + b * h) * p == a * (p * w) + b * (h * p)
  {
    Rearrange(a, w, p);
    MulAssoc(b, h, p);
  }

  lemma AlignedIsNear(a: int, b: int, d: nat)
    requires d < 60 && HIDDEN_BIT <= Abs(a) < 2 * HIDDEN_BIT && Abs(b) < 2 * HIDDEN_BIT
    ensures Near(a * Pow2(60) + b * Pow2(60 - d), Aligned(a, b, d))
  {
    if d <= 32 {
      AlignedExactly(a, b, d);
    } else {
      AlignedSticky(a, b, d);
    }
  }

  lemma HighPart(a: int)
    ensures a * Pow2(60) == a * WORD * 0x1000_0000
  {
    hide Pow2;
    Powers();
    Pow2Values();
  }

  lemma AlignedExactly(a: int, b: int, d: nat)
    requires d <= 32
    ensures a * Pow2(60) + b * Pow2(60 - d) == Aligned(a, b, d) * 0x1000_0000
  {
    hide Pow2;
    HighPart(a);
    Powers();
    Pow2Add(32 - d, 28);
    MulAssoc(b, Pow2(32 - d), 0x1000_0000);
  }

  lemma AlignedSticky(a: int, b: int, d: nat)
    requires 32 < d < 60 && HIDDEN_BIT <= Abs(a) && Abs(b) < 2 * HIDDEN_BIT
    ensures Near(a * Pow2(60) + b * Pow2(60 - d), Aligned(a, b, d))
  {
    hide Pow2, Sticky;
    HighPart(a);
    Powers();
    Pow2Add(d - 32, 60 - d);
    StickyIsNear(b, Pow2(d - 32), Pow2(60 - d));
    StickyBounds(b, Pow2(d - 32));
    StickySum(a * WORD, Sticky(b, Pow2(d - 32)), b * Pow2(60 - d), b % Pow2(d - 32) == 0);
    assert (a * WORD) % 2 == 0 && Abs(a * WORD) >= Q84;
  }

  lemma StickySum(high: int, t: int, low: int, exact: bool)
    requires high % 2 == 0 && Abs(high) >= Q84 && -0x80_0000_0000_0000 < t < 0x80_0000_0000_0000
    requires if exact then low == t * 0x1000_0000 else t % 2 == 1 && (t - 1) * 0x1000_0000 < low < (t + 1) * 0x1000_0000
    ensures Near(high * 0x1000_0000 + low, high + t)
  {
  }

  lemma StickyIsNear(b: int, g: nat, h: nat)
    requires g > 0 && h > 0 && g * h == 0x1000_0000
    ensures b % g == 0 ==> b * h == Sticky(b, g) * 0x1000_0000
    ensures b % g != 0 ==>
              Sticky(b, g) % 2 == 1
              && (Sticky(b, g) - 1) * 0x1000_0000 < b * h < (Sticky(b, g) + 1) * 0x1000_0000
  {
    StickyMeans(b, g);
    var t := Sticky(b, g);
    hide Sticky;
    MulAssoc(t, g, h);
    MulAssoc(t - 1, g, h);
    MulAssoc(t + 1, g, h);
    if b % g != 0 {
      MulLess((t - 1) * g, b, h);
      MulLess(b, (t + 1) * g, h);
    }
  }

  lemma WideBounds(v: int, e: int)
    requires -4 * Q84 < v < 4 * Q84 && v != 0
    ensures e >= 0x77_0000 ==> Packed(v, e) == SignBit(v < 0) + INFINITY
    ensures e < 0 ==> Packed(v, e) == SignBit(v < 0)
  {
    hide Rne;
    if Abs(v) < 2 * Q84 {
      Powers();
      NormShiftBound(Abs(v), 84) by { MulLe(1, Abs(v), Pow2(84)); }
    }
  }

  /** For every pair of operands, aligning by the wide exponents and packing gives the sum. */
  lemma SumIsPackedAligned(x: double, y: double)
    requires WideExponent(x) >= WideExponent(y)
    ensures Sum(x, y) ==
            Packed(Aligned(Significand(x), Significand(y), WideExponent(x) - WideExponent(y)), WideExponent(x))
  {
    hide Packed, Sum, Aligned, Significand;
    if 0 < Exponent(x) < 2047 {
      FiniteSum(x, y);
    } else {
      OutOfRangeSum(x, y);
    }
  }

  lemma OutOfRangeSum(x: double, y: double)
    requires WideExponent(x) >= WideExponent(y) && (Exponent(x) == 0 || Infinite(x))
    ensures Sum(x, y) ==
            Packed(Aligned(Significand(x), Significand(y), WideExponent(x) - WideExponent(y)), WideExponent(x))
  {
    hide PackSum, Round64, Val, Aligned, Abs;
    var a, b, d := Significand(x), Significand(y), WideExponent(x) - WideExponent(y);
    SignificandBounds(x);
    SignificandBounds(y);
    AlignedBound(a, b, d);
    AlignedSign(a, b, d);
    var v := Aligned(a, b, d);
    if v != 0 { WideBounds(v, WideExponent(x)); }
  }

  lemma FiniteSum(x: double, y: double)
    requires WideExponent(x) >= WideExponent(y) && 0 < Exponent(x) < 2047
    ensures Sum(x, y) ==
            Packed(Aligned(Significand(x), Significand(y), WideExponent(x) - WideExponent(y)), WideExponent(x))
  {
    hide Packed, Pow2, Aligned, Significand, Round64, Quanta;
    var a, b, d := Significand(x), Significand(y), WideExponent(x) - WideExponent(y);
    if d >= 60 {
      LargerWins(x, y);
      FarAligned(a, b, d);
    } else {
      SignificandBounds(x);
      SignificandBounds(y);
      AlignedBound(a, b, d);
      AlignedSign(a, b, d);
      CloseSum(x, y);
      ExactSum(SignedQuanta(x) + SignedQuanta(y), a * Pow2(60) + b * Pow2(60 - d), Aligned(a, b, d), Exponent(x));
      if SignedQuanta(x) + SignedQuanta(y) == 0 { Cancels(x, y); }
    }
  }

  lemma Cancels(x: double, y: double)
    requires 0 < Exponent(x) < 2047 && SignedQuanta(x) + SignedQuanta(y) == 0
    ensures !Negative(x) || !Negative(y)
  {
    hide Pow2, Quanta;
    QuantaOf(x);
    MulLe(1, HIDDEN_BIT + Fraction(x), Pow2(Exponent(x) - 1));
  }

  lemma FarAligned(a: int, b: int, d: nat)
    requires d >= 60
    ensures Aligned(a, b, d) == a * WORD
  {
  }

  lemma SumCommutes(x: double, y: double)
    ensures Sum(x, y) == Sum(y, x)
  {
  }

  // ---- The routine; the high words of significands are read as signed ----

  function Wide(r1: int, r0: int, r4: int): int {
    (r1 * WORD + r0) * WORD + r4
  }

  /** mdunpacks. */
  method Unpack(lo: word, hi: word) returns (ra: word, rb: int, re: int)
    ensures var x := hi * WORD + lo; rb * WORD + ra == Significand(x) && re == WideExponent(x)
    ensures -0x20_0000 <= rb < 0x20_0000
  {
    DoubleMul.UnpackFields(lo, hi);
    re := hi / 0x10_0000;                           // lsrs #20: sign and exponent
    var sign := hi / 0x8000_0000;                   // lsrs #31
    rb := (hi - (re - 1) * 0x10_0000) % WORD;       // subs: clear sign and exponent, insert 1
    ra := lo;
    if re / 0x800 == 1 {                            // lsls #21: the sign into the carry
      rb := -rb - 1;                                // mvns
      ra := (WORD - ra) % WORD;                     // rsbs
      if ra == 0 { rb := rb + 1; }
    }
    re := re % 0x800;                               // lsrs #21
    if re == 0 || (re + 1) / 0x800 != 0 {
      if re != 0 { re := re - sign; }
      ra := 0;
      rb := if sign == 1 then -0x10_0000 else 0x10_0000;
      re := (re - 128) * 4096;
    }
  }

  /** lsls: the low word of a shift left. */
  function Lsl(x: int, n: nat): word { x * Pow2(n) % WORD }

  /** lsrs of a word, asrs of a signed number. */
  function Shr(x: int, n: nat): int { x / Pow2(n) }

  lemma ShiftedOut(x: int, d: nat)
    requires d <= 32
    ensures Lsl(x, 32 - d) == x % Pow2(d) * Pow2(32 - d)
    ensures x * Pow2(32 - d) == Shr(x, d) * WORD + Lsl(x, 32 - d)
  {
    hide Pow2;
    FloatAdd.ShiftIsExact(x, d);
    var g, h := Pow2(d), Pow2(32 - d);
    Pow2Values();
    Pow2Add(d, 32 - d);
    DivMod(x, g);
    Distribute(x / g * g, x % g, h);
    MulAssoc(x / g, g, h);
  }

  lemma ShiftedParts(x: int, d: nat)
    requires d <= 32
    ensures x * Pow2(32 - d) == Shr(x, d) * WORD + Lsl(x, 32 - d)
    ensures Lsl(x, 32 - d) <= WORD - Pow2(32 - d)
  {
    hide Pow2, Lsl, Shr;
    ShiftedOut(x, d);
    Pow2Values();
    Pow2Add(d, 32 - d);
    MulLe(x % Pow2(d), Pow2(d) - 1, Pow2(32 - d));
    Distribute(Pow2(d), -1, Pow2(32 - d));
  }

  lemma HighBits(lo: word, d: nat)
    requires d <= 32
    ensures 0 <= Shr(lo, d) < Pow2(32 - d) <= WORD
  {
    hide Pow2;
    Pow2Values();
    Pow2Add(d, 32 - d);
    Pow2Mono(32 - d, 32);
    DivMod(lo, Pow2(d));
    DivNonNegative(lo, Pow2(d));
    if lo / Pow2(d) >= Pow2(32 - d) { MulLe(Pow2(32 - d), lo / Pow2(d), Pow2(d)); }
  }

  /** A shift right by less than a word, the bits shifted out in a third word. Where two words are
      put together with orrs they have no bit in common. */
  method ShiftNear(lo: word, hi: int, d: nat) returns (r2: word, r3: int, r4: word)
    requires d < 32
    ensures Wide(r3, r2, r4) == (hi * WORD + lo) * Pow2(32 - d)
  {
    hide Pow2, Lsl, Shr;
    ShiftedParts(hi, d);
    ShiftedParts(lo, d);
    HighBits(lo, d);
    Distribute(hi * WORD, lo, Pow2(32 - d));
    Swap(hi, WORD, Pow2(32 - d));
    r4 := Lsl(lo, 32 - d);                          // rounding bit and sticky bits
    var r5 := Lsl(hi, 32 - d);
    r2 := Shr(lo, d);
    r3 := Shr(hi, d);
    r2 := r2 + r5;                                  // orrs
  }

  /** Dividing a two-word number by 2^k: the quotient's words. */
  lemma WideQuotient(lo: word, hi: int, k: nat)
    requires k <= 32
    ensures (hi * WORD + lo) % Pow2(k) == lo % Pow2(k)
    ensures (hi * WORD + lo) / Pow2(k) == Shr(hi, k) * WORD + Lsl(hi, 32 - k) + Shr(lo, k)
  {
    hide Pow2, Lsl;
    var g, h := Pow2(k), Pow2(32 - k);
    Pow2Values();
    Pow2Add(32 - k, k);
    ShiftedParts(hi, k);
    DivMod(lo, g);
    MulAssoc(hi, h, g);
    Distribute(hi * h, lo / g, g);
    DivModOf(hi * h + lo / g, lo % g, g);
  }

  /** The upper two words after the far shift: hi filled up with its sign. */
  lemma UpperWords(hi: int, k: nat)
    requires k < 32 && -0x8000_0000 <= hi < 0x8000_0000
    ensures var r3 := if hi < 0 then -1 else 0;
            && Shr(r3, k) == r3 && 0 <= Shr(hi % WORD, k) && Shr(hi % WORD, k) + Lsl(r3, 32 - k) < WORD
            && r3 * WORD + (Shr(hi % WORD, k) + Lsl(r3, 32 - k)) == Shr(hi, k)
  {
    hide Pow2, Shr, Lsl;
    if hi < 0 {
      assert hi % WORD == hi + WORD;
      NegativeWords(hi, k);
      HighBits(hi + WORD, k);
    } else {
      assert hi % WORD == hi;
      PositiveWords(hi, k);
    }
  }

  lemma PositiveWords(hi: word, k: nat)
    requires k < 32
    ensures Shr(0, k) == 0 && 0 <= Shr(hi, k) < WORD && Lsl(0, 32 - k) == 0
  {
    hide Pow2;
    HighBits(hi, k);
    DivModOf(0, 0, Pow2(k));
  }

  lemma NegativeWords(hi: int, k: nat)
    requires k < 32 && -0x8000_0000 <= hi < 0
    ensures Shr(-1, k) == -1 && Shr(hi + WORD, k) == Shr(hi, k) + Pow2(32 - k) && -0x8000_0000 <= Shr(hi, k) < 0
    ensures Lsl(-1, 32 - k) == WORD - Pow2(32 - k)
  {
    hide Pow2;
    var g, h := Pow2(k), Pow2(32 - k);
    Pow2Values();
    Pow2Add(32 - k, k);
    Pow2Mono(32 - k, 32);
    DivMod(hi, g);
    QuotientBounds(hi, hi / g, hi % g, g);
    NegativeQuotient(hi, hi / g, hi % g, g);
    Distribute(hi / g, h, g);
    DivModOf(hi / g + h, hi % g, g);
    DivModOf(-1, g - 1, g);
  }

  lemma NegativeQuotient(b: int, q: int, r: int, g: nat)
    requires b < 0 && g > 0 && b == q * g + r && 0 <= r < g
    ensures q < 0
  {
    if q >= 0 { MulLe(0, q, g); }
  }

  lemma NothingShiftedOut(lo: word, k: nat)
    requires k <= 32
    ensures Lsl(lo, 32 - k) == 0 <==> lo % Pow2(k) == 0
  {
    hide Pow2, Lsl;
    ShiftedOut(lo, k);
    if lo % Pow2(k) > 0 { MulLess(0, lo % Pow2(k), Pow2(32 - k)); }
  }

  lemma HalfPower(n: nat)
    requires n > 0
    ensures Pow2(n) == 2 * Pow2(n - 1)
  {
  }

  lemma EvenProduct(r: nat, h: nat)
    ensures r * (2 * h) % 2 == 0
  {
    MulAssoc(r, 2, h);
    Swap(r, 2, h);
  }

  lemma EvenShift(x: int, k: nat)
    requires k < 32
    ensures Lsl(x, 32 - k) % 2 == 0 && Pow2(32 - k) % 2 == 0
  {
    hide Pow2, Lsl;
    ShiftedOut(x, k);
    HalfPower(32 - k);
    EvenProduct(x % Pow2(k), Pow2(31 - k));
  }

  /** The parts of the lowest word after the far shift have no bit in common, and room for one more. */
  lemma LowestWord(lo: word, hi: int, k: nat)
    requires k < 32
    ensures var low, high := Shr(lo, k), Lsl(hi, 32 - k);
            0 <= low < WORD && low + high < WORD && high % 2 == 0 && (low % 2 == 0 ==> low + 1 + high < WORD)
  {
    hide Pow2, Lsl, Shr;
    ShiftedParts(hi, k);
    EvenShift(hi, k);
    HighBits(lo, k);
  }

  lemma StickyWords(lo: word, hi: int, k: nat)
    requires k < 32
    ensures var low := Shr(lo, k);
            var w := if Lsl(lo, 32 - k) != 0 && low % 2 == 0 then low + 1 else low;
            Sticky(hi * WORD + lo, Pow2(k)) == Shr(hi, k) * WORD + (Lsl(hi, 32 - k) + w)
  {
    hide Pow2, Lsl, Shr;
    WideQuotient(lo, hi, k);
    NothingShiftedOut(lo, k);
    EvenShift(hi, k);
    SameParity(Shr(hi, k), Lsl(hi, 32 - k), Shr(lo, k));
  }

  lemma SameParity(q: int, high: int, low: int)
    requires high % 2 == 0
    ensures (q * WORD + high + low) % 2 == low % 2
  {
  }

  /** A shift right by 32 to 59 places: what does not fit in the third word sets its last bit. */
  method ShiftFar(lo: word, hi: int, d: nat) returns (r2: word, r3: int, r4: word)
    requires 32 <= d < 60 && -0x8000_0000 <= hi < 0x8000_0000
    ensures Wide(r3, r2, r4) == Sticky(hi * WORD + lo, Pow2(d - 32))
  {
    hide Pow2, Sticky, Lsl, Shr;
    var k := d - 32;
    LowestWord(lo, hi, k);
    UpperWords(hi, k);
    StickyWords(lo, hi, k);
    r4 := Lsl(lo, 32 - k);                          // shifted off the bottom of the sticky bits
    if r4 != 0 { r4 := 1; }
    r2 := Shr(lo, k);
    r4 := if r4 == 1 && r2 % 2 == 0 then r2 + 1 else r2;    // orrs
    r2 := hi % WORD;
    var high := Lsl(hi, 32 - k);
    r4 := r4 + high;                                // orrs
    r3 := if hi < 0 then -1 else 0;                 // asrs #31: propagate sign bit
    var r5 := Lsl(r3, 32 - k);
    r2 := Shr(r2, k);
    r3 := Shr(r3, k);
    r2 := r2 + r5;                                  // orrs
  }

  /** The alignment and the addition, for operand a with the larger exponent and b that is d
      binades below: the routine has one copy for each order of its operands. */
  method AlignAndAdd(alo: word, ahi: int, blo: word, bhi: int, d: nat) returns (r0: word, r1: int, r4: word)
    requires -0x8000_0000 <= bhi < 0x8000_0000
    ensures Wide(r1, r0, r4) == Aligned(ahi * WORD + alo, bhi * WORD + blo, d)
  {
    hide Pow2, Sticky;
    if d >= 60 {
      return alo, ahi, 0;                           // result is just the larger
    }
    var r2, r3;
    if d < 32 {
      r2, r3, r4 := ShiftNear(blo, bhi, d);
    } else {
      r2, r3, r4 := ShiftFar(blo, bhi, d);
      if d == 32 { NothingLost(bhi * WORD + blo); }
    }
    var carry := if alo + r2 >= WORD then 1 else 0;
    r0 := (alo + r2) % WORD;                        // adds
    r1 := ahi + r3 + carry;                         // adcs
  }

  lemma NothingLost(b: int)
    ensures Pow2(0) == 1 && Sticky(b, 1) == b
  {
  }

  /** The sign of the 96-bit number r1:r0:r4 and its magnitude. */
  method SplitSign(r1in: int, r0in: word, r4in: word) returns (r3: nat, r1: int, r0: word, r4: word)
    ensures r3 == (if r1in < 0 then 1 else 0) && r1 >= 0 && Wide(r1, r0, r4) == Abs(Wide(r1in, r0in, r4in))
  {
    r1, r0, r4 := r1in, r0in, r4in;
    r3 := if r1 < 0 then 1 else 0;                  // lsrs #31
    if r3 == 1 {
      r1 := -r1 - 1;                                // mvns
      r0 := WORD - 1 - r0;                          // mvns
      var carry := if r4 == 0 then 1 else 0;
      r4 := (WORD - r4) % WORD;                     // rsbs
      r1 := r1 + (r0 + carry) / WORD;               // adcs
      r0 := (r0 + carry) % WORD;
    }
  }

  lemma Doubled(r1: int, r0: word, r4: word)
    ensures Wide(r1 * 2 + (r0 * 2 + r4 * 2 / WORD) / WORD, (r0 * 2 + r4 * 2 / WORD) % WORD, r4 * 2 % WORD)
            == 2 * Wide(r1, r0, r4)
  {
  }

  /** The loop at da_2: shift up to a leading one in bit 20 of the high word. */
  method Normalise(r1in: int, r0in: word, r4in: word, r2in: int) returns (r1: int, r0: word, r4: word, r2: int)
    requires r1in >= 0 && 0 < Wide(r1in, r0in, r4in) < 2 * Q84
    ensures var v := Wide(r1in, r0in, r4in); Wide(r1, r0, r4) == v * Pow2(NormShift(v)) && r2 == r2in - NormShift(v)
    ensures 0x10_0000 <= r1 < 0x20_0000
  {
    r1, r0, r4, r2 := r1in, r0in, r4in, r2in;
    ghost var v, l, w := Wide(r1, r0, r4), 0, Wide(r1, r0, r4);
    while r1 / 0x10_0000 == 0
      invariant 0 <= r1 < 0x20_0000 && w == Wide(r1, r0, r4) && 0 < w
      invariant w == v * Pow2(l) && r2 == r2in - l && NormShift(v) == l + NormShift(w)
      decreases Q84 - w
    {
      MulAssoc(v, Pow2(l), 2);
      Doubled(r1, r0, r4);
      var carry := r4 * 2 / WORD;
      r4 := r4 * 2 % WORD;                          // adds
      var t := r0 * 2 + carry;
      r0 := t % WORD;                               // adcs
      r1 := r1 * 2 + t / WORD;                      // adcs
      r2 := r2 - 1;                                 // adjust exponent
      l, w := l + 1, w * 2;
    }
    assert w >= Q84;
  }

  /** From da_4: round up r1:r0, or to even if there is nothing below the rounding bit. */
  method RoundUp(r1in: nat, r0in: word, r4: word) returns (r1: nat, r0: word)
    ensures r1 * WORD + r0 == var q := r1in * WORD + r0in; if r4 == 0 && q % 2 == 0 then q else q + 1
  {
    r1, r0 := r1in, r0in;
    r0 := (r0 + 1) % WORD;                          // adds
    if r0 == 0 { r1 := r1 + 1; }
    if r4 == 0 { r0 := r0 / 2 * 2; }                // sticky bits all zero: round to even
  }

  /** From da_3: pack the rounded significand r1:r0 with exponent r2 and sign r3. */
  method Pack(r1in: nat, r0in: word, r2in: int, r3: nat) returns (r0: word, r1: word)
    requires HIDDEN_BIT <= r1in * WORD + r0in <= 2 * HIDDEN_BIT && r3 < 2
    ensures r1 * WORD + r0 == r3 * SIGN_BIT + PackRounded(r2in - 1, r1in * WORD + r0in)
  {
    var r2 := r2in - 1;
    if r2 < 0 {
      return 0, r3 * 0x8000_0000;                   // underflow: signed zero
    }
    if (r2 + 2) / 0x800 != 0 {
      return 0, r3 * 0x8000_0000 + 0x7ff0_0000;     // overflow: signed infinity
    }
    r0 := r0in;
    r1 := r1in + r2 * 0x10_0000 + r3 * 0x8000_0000;
  }

  lemma RoundWord(q: nat, r4: word)
    ensures Rne(q * WORD + r4, Pow2(32)) == if r4 < 0x8000_0000 || (r4 == 0x8000_0000 && q % 2 == 0) then q else q + 1
  {
    Pow2Values();
    RneSplit(q, r4, WORD);
  }

  lemma RoundWordDown(q: nat, half: nat, r4: word)
    requires half < 2
    ensures Rne((2 * q + half) * WORD + r4, Pow2(33)) == if half == 0 || (r4 == 0 && q % 2 == 0) then q else q + 1
  {
    Pow2Values();
    assert (2 * q + half) * WORD + r4 == q * (2 * WORD) + (half * WORD + r4);
    RneSplit(q, half * WORD + r4, 2 * WORD);
  }

  /** From da_1: a normalised significand, its rounding bit on top of r4. */
  method RoundAndPack(r1in: nat, r0in: word, r4: word, r2: int, r3: nat) returns (r0: word, r1: word)
    requires 0x10_0000 <= r1in < 0x20_0000 && r3 < 2
    ensures r1 * WORD + r0 == r3 * SIGN_BIT + PackRounded(r2 - 1, Rne(Wide(r1in, r0in, r4), Pow2(32)))
  {
    hide PackRounded, Rne, Pow2;
    RoundWord(r1in * WORD + r0in, r4);
    var high, low := r1in, r0in;
    if r4 * 2 / WORD == 1 {                         // lsls #1: check rounding bit
      high, low := RoundUp(high, low, r4 * 2 % WORD);
    }
    r0, r1 := Pack(high, low, r2, r3);
  }

  /** From da_0: a shift down by one place is required. */
  method ShiftDownAndPack(r1in: nat, r0in: word, r4: word, r2: int, r3: nat) returns (r0: word, r1: word)
    requires 0x20_0000 <= r1in < 0x40_0000 && r3 < 2
    ensures r1 * WORD + r0 == r3 * SIGN_BIT + PackRounded(r2, Rne(Wide(r1in, r0in, r4), Pow2(33)))
  {
    hide PackRounded, Rne, Pow2;
    var half := r0in % 2;                           // lsls #31: save rounding bit
    var low := r0in / 2 + r1in % 2 * 0x8000_0000;   // lsrs, orrs
    var high := r1in / 2;
    RoundWordDown(high * WORD + low, half, r4);
    if half == 1 {
      high, low := RoundUp(high, low, r4);
    }
    r0, r1 := Pack(high, low, r2 + 1, r3);
  }

  /** From da_pack: the sum is r1:r0:r4 (r1 signed), its exponent r12. */
  method FinishSum(r1in: int, r0in: word, r4in: word, r12: int) returns (r0: word, r1: word)
    requires -4 * Q84 < Wide(r1in, r0in, r4in) < 4 * Q84
    ensures r1 * WORD + r0 == Packed(Wide(r1in, r0in, r4in), r12)
  {
    hide Pow2, Rne, PackRounded, NormShift;
    var r3, high, low, r4 := SplitSign(r1in, r0in, r4in);
    var r2 := r12;
    if high / 0x20_0000 != 0 {
      r0, r1 := ShiftDownAndPack(high, low, r4, r2, r3);
      return;
    }
    if high / 0x10_0000 == 0 {
      if low == 0 && high == 0 && r4 == 0 {
        return 0, 0;                                // identical magnitudes, opposite signs: +0
      }
    }
    high, low, r4, r2 := Normalise(high, low, r4, r2);
    r0, r1 := RoundAndPack(high, low, r4, r2, r3);
  }

  /** mufp_dadd: the operands and the result are pairs of words, low word first. */
  method Dadd(xl: word, xh: word, yl: word, yh: word) returns (r0: word, r1: word)
    ensures r1 * WORD + r0 == Sum(xh * WORD + xl, yh * WORD + yl)
  {
    hide Sum, Packed, Aligned, WideExponent, Significand, Pow2;
    ghost var x, y := xh * WORD + xl, yh * WORD + yl;
    SignificandBounds(x);
    SignificandBounds(y);
    var xa, xb, xe := Unpack(xl, xh);
    var ya, yb, ye := Unpack(yl, yh);
    var r7, r6 := ye - xe, xe - ye;
    var s1, s4, r12;
    if r6 >= 0 {                                    // bmi
      SumIsPackedAligned(x, y);
      AlignedBound(Significand(x), Significand(y), r6);
      r12 := xe;
      r0, s1, s4 := AlignAndAdd(xa, xb, ya, yb, r6);
    } else {
      SumIsPackedAligned(y, x);
      SumCommutes(x, y);
      AlignedBound(Significand(y), Significand(x), r7);
      r12 := ye;
      r0, s1, s4 := AlignAndAdd(ya, yb, xa, xb, r7);
    }
    r0, r1 := FinishSum(s1, r0, s4, r12);
  }

  lemma Flipped(yl: word, yh: word)
    ensures var y := yh * WORD + yl;
            (yh + 0x8000_0000) % WORD * WORD + yl == if Negative(y) then y - SIGN_BIT else y + SIGN_BIT
  {
  }

  /** mufp_dsub flips the sign of its second operand and continues in mufp_dadd. */
  method Dsub(xl: word, xh: word, yl: word, yh: word) returns (r0: word, r1: word)
    ensures var y := yh * WORD + yl;
            r1 * WORD + r0 == Sum(xh * WORD + xl, if Negative(y) then y - SIGN_BIT else y + SIGN_BIT)
  {
    hide Sum;
    Flipped(yl, yh);
    var r3 := (yh + 0x8000_0000) % WORD;            // eors with the sign bit
    r0, r1 := Dadd(xl, xh, yl, r3);
  }

  // ---- Laws of the sum ----

  /** Adding either zero gives back a normal number. */
  lemma SumWithZero(x: double)
    requires 0 < Exponent(x) < 2047
    ensures Sum(x, 0) == Sum(x, 0x8000_0000_0000_0000) == x
  {
    hide Quanta, Round64;
    assert Quanta(0) == Quanta(0x8000_0000_0000_0000) == 0 by { NoQuanta(); }
    ValuePositive(x);
    OwnDouble(x);
  }

  lemma NoQuanta()
    ensures Quanta(0) == Quanta(0x8000_0000_0000_0000) == 0
  {
  }

  /** What is neither of those: opposite numbers cancel to positive zero, opposite infinities give
      positive infinity, and an infinity swallows anything finite. */
  lemma SumExtremes(x: double, y: double)
    ensures x < 0x7ff0_0000_0000_0000 && y == x + 0x8000_0000_0000_0000 ==> Sum(x, y) == Sum(y, x) == 0
    ensures Sum(0x7ff0_0000_0000_0000, 0xfff0_0000_0000_0000) == 0x7ff0_0000_0000_0000
    ensures Sum(0xfff0_0000_0000_0000, 0xfff0_0000_0000_0000) == 0xfff0_0000_0000_0000
    ensures x < 0x7ff0_0000_0000_0000 ==>
              && Sum(0x7ff0_0000_0000_0000, x) == 0x7ff0_0000_0000_0000
              && Sum(x, 0xfff0_0000_0000_0000) == 0xfff0_0000_0000_0000
  {
    hide Val, Round64;
  }
}
