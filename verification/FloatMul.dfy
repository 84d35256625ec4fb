/** Single precision multiplication. */
module FloatMul {
  import opened Rounding
  import opened Float32

  /** The product the routine promises: exact, then rounded to nearest even. */
  function Product(x: word, y: word): word {
    var negative := Negative(x) != Negative(y);
    if Infinite(x) || Infinite(y) then SignWord(negative) + INFINITY
    else Round32(negative, Times(Quanta(x), Quanta(y)), Pow2(149))
  }

  lemma Expand(a: nat, b: nat, c: nat, d: nat)
    ensures (128 * a + b) * (128 * c + d) == 0x4000 * (a * c) + 128 * (a * d + b * c) + b * d
  {
  }

  /** Truncating both significands to 16 bits loses less than 2^31 of the product. */
  lemma HighEstimate(x: nat, y: nat)
    requires x < HIDDEN_BIT && y < HIDDEN_BIT
    ensures var e := (x / 128) * (y / 128);
            e < WORD && 0 <= x * y - e * 0x4000 < 0x8000_0000
  {
    Expand(x / 128, x % 128, y / 128, y % 128);
    assert 128 * (x / 128) + x % 128 == x && 128 * (y / 128) + y % 128 == y;
    CrossTerms(x / 128, x % 128, y / 128, y % 128);
  }

  lemma CrossTerms(a: nat, b: nat, c: nat, d: nat)
    requires a < 65536 && b < 128 && c < 65536 && d < 128
    ensures a * c < WORD && 0 <= 128 * (a * d + b * c) + b * d < 0x8000_0000
  {
    AtMost(a, 65535, c, 65535);
    AtMost(a, 65535, d, 127);
    AtMost(b, 127, c, 65535);
    AtMost(b, 127, d, 127);
    Weighted(a * d, b * c, b * d);
  }

  lemma AtMost(a: nat, m: nat, c: nat, n: nat)
    requires a <= m && c <= n
    ensures 0 <= a * c <= m * n
  {
    MulLe(a, m, c);
    MulLe(c, n, m);
  }

  lemma Weighted(ad: nat, bc: nat, bd: nat)
    requires ad <= 65535 * 127 && bc <= 127 * 65535 && bd <= 127 * 127
    ensures 0 <= 128 * (ad + bc) + bd < 0x8000_0000
  {
  }

  /** The estimate's bit 31 is set and the exact one clear exactly when a carry went missing. */
  lemma CarryFix(p: nat, e: nat)
    requires 0 <= p - e * 0x4000 < 0x8000_0000
    ensures p / WORD == e / 0x4_0000 + if e / 0x2_0000 % 2 == 1 && p % WORD < 0x8000_0000 then 1 else 0
  {
  }

  /** Putting the two halves of x * y together in Q23 with the implied ones added. */
  lemma Assembled(x: word, y: word, high: nat, low: nat)
    requires x < HIDDEN_BIT && y < HIDDEN_BIT && low < WORD && x * y == high * WORD + low
    ensures high * 512 + low / HIDDEN_BIT + x + y < 3 * HIDDEN_BIT
    ensures (HIDDEN_BIT + x) * (HIDDEN_BIT + y)
            == (HIDDEN_BIT + high * 512 + low / HIDDEN_BIT + x + y) * HIDDEN_BIT + low % HIDDEN_BIT
  {
    var p := x * y;
    assert (HIDDEN_BIT + x) * (HIDDEN_BIT + y) == HIDDEN_BIT * HIDDEN_BIT + HIDDEN_BIT * (x + y) + p;
    MulLe(x, HIDDEN_BIT - 1, y);
    assert p == (high * 512 + low / HIDDEN_BIT) * HIDDEN_BIT + low % HIDDEN_BIT;
  }

  lemma LowBits(low: word)
    ensures (low * 512 % WORD) % 512 == 0 && (low * 512 % WORD) / 512 == low % HIDDEN_BIT
  {
  }

  /** What the two multiply instructions and the carry fix leave in r2 and r0. */
  function TopWord(estimate: word, low: word): nat {
    estimate / 0x4_0000 + if estimate / 0x2_0000 % 2 == 1 && low < SIGN_BIT then 1 else 0
  }

  lemma TopWordIsExact(x: word, y: word)
    requires x < HIDDEN_BIT && y < HIDDEN_BIT
    ensures (x / 128) * (y / 128) < WORD
    ensures x * y == TopWord((x / 128) * (y / 128), (x * y) % WORD) * WORD + (x * y) % WORD
  {
    HighEstimate(x, y);
    CarryFix(x * y, (x / 128) * (y / 128));
  }

  /** A product of two significands, from its Q23 part less one and the bits below. */
  function Product48(r0: word, r3: word): nat {
    (HIDDEN_BIT + r0) * HIDDEN_BIT + r3 / 512
  }

  /** The multiplication proper: r0 and r3 are the significand product minus one, in Q23 and
      below, for significands 1.x and 1.y. */
  method SignificandProduct(x: word, y: word) returns (r0: word, r3: word)
    requires x < HIDDEN_BIT && y < HIDDEN_BIT
    ensures r3 % 512 == 0 && r0 < 3 * HIDDEN_BIT
    ensures (HIDDEN_BIT + x) * (HIDDEN_BIT + y) == Product48(r0, r3)
  {
    TopWordIsExact(x, y);
    var r12 := x + y;                       // adds, for later
    var r2 := (x / 128) * (y / 128);        // muls of the top 16 bits, Q32
    r0 := (x * y) % WORD;                   // muls, low word, Q46
    Assembled(x, y, TopWord(r2, r0), r0);
    LowBits(r0);
    var carry := r2 / 0x2_0000 % 2;
    r2 := r2 / 0x4_0000;                    // lsrs #18, Q14
    if carry == 1 && r0 < SIGN_BIT {        // bcc, bmi
      r2 := r2 + 1;                         // fix error in r2
    }
    r3 := r0 * 512 % WORD;                  // lsls #9, bits off the bottom
    r0 := r2 * 512 + r0 / HIDDEN_BIT + r12; // lsrs #23, lsls #9, adds, add
  }

  /** What packing must yield for a product in [1, 2) or [2, 4) with exponent r7 + 1. */
  function Packed(r7: int, r0: word, r3: word): nat {
    if r0 < HIDDEN_BIT then PackAt(r7, Product48(r0, r3), 23, 24, 255)
    else PackAt(r7 + 1, Product48(r0, r3), 24, 24, 255)
  }

  /** The same with the significand already split at the rounding bit: r0 is Q23 in [0, 1). */
  function PackedLow(r7: int, r0: word, r3: word): nat {
    var up := r3 > SIGN_BIT || (r3 == SIGN_BIT && r0 % 2 == 1);
    if r7 >= 254 then INFINITY
    else if r7 >= 0 then (r7 + 1) * HIDDEN_BIT + r0 + if up then 1 else 0
    else if r7 == -1 && r0 == HIDDEN_BIT - 1 then HIDDEN_BIT
    else 0
  }

  /** Likewise for r0 in [1, 3), where the bottom bit of r0 is the rounding bit. */
  function PackedHigh(r7: int, r0: word, r3: word): nat {
    var up := r0 % 2 == 1 && (r3 != 0 || r0 / 2 % 2 == 1);
    if r7 >= 253 then INFINITY
    else if r7 >= -1 then (r7 + 1) * HIDDEN_BIT + HIDDEN_BIT / 2 + r0 / 2 + if up then 1 else 0
    else if r7 == -2 && r0 / 2 == 3 * (HIDDEN_BIT / 2) - 1 then HIDDEN_BIT
    else 0
  }

  lemma PackedLowIs(r7: int, r0: word, r3: word)
    requires r3 % 512 == 0 && r0 < HIDDEN_BIT
    ensures Packed(r7, r0, r3) == PackedLow(r7, r0, r3)
  {
    hide Rne, Pow2;
    Pow2Values();
    RneSplit(HIDDEN_BIT + r0, r3 / 512, HIDDEN_BIT);
    DivModOf(HIDDEN_BIT + r0, r3 / 512, HIDDEN_BIT);
  }

  lemma PackedHighIs(r7: int, r0: word, r3: word)
    requires r3 % 512 == 0 && HIDDEN_BIT <= r0 < 3 * HIDDEN_BIT
    ensures Packed(r7, r0, r3) == PackedHigh(r7, r0, r3)
  {
    hide Rne, Pow2;
    Pow2Values();
    var f, low := HIDDEN_BIT / 2 + r0 / 2, r0 % 2 * HIDDEN_BIT + r3 / 512;
    assert Product48(r0, r3) == f * (2 * HIDDEN_BIT) + low;
    RneSplit(f, low, 2 * HIDDEN_BIT);
    DivModOf(f, low, 2 * HIDDEN_BIT);
  }

  /** Rounding and packing a product in [1, 2): exponent less one in r7, sign bit in r14. */
  method PackBelowTwo(r7in: int, r0in: word, r3in: word, r14: word) returns (r0: word)
    requires r0in < HIDDEN_BIT
    requires r14 == 0 || r14 == SIGN_BIT
    ensures r0 == r14 + PackedLow(r7in, r0in, r3in)
  {
    if r7in < 0 || r7in >= 254 {          // cmp #254, bhs
      if r7in >= 254 { return r14 + INFINITY; }
      if r7in + 1 != 0 || (r0in + 1) / HIDDEN_BIT == 0 { return r14; }
      return r14 + HIDDEN_BIT;            // smallest normal
    }
    var r7 := r7in;
    r0 := r0in;
    var carry, r3 := r3in / SIGN_BIT, r3in * 2 % WORD;  // lsls #1
    if carry == 1 {
      r0 := r0 + 1;                       // round up
      if r3 == 0 { r0 := r0 / 2 * 2; }    // tie
    }
    r7 := r7 + 1;                         // for implied 1
    r0 := r0 + r7 * HIDDEN_BIT;
    r0 := r0 + r14;
  }

  /** The same for a product in [2, 4), whose lowest mantissa bit is the rounding bit. */
  method PackFromTwo(r7in: int, r0in: word, r3: word, r14: word) returns (r0: word)
    requires HIDDEN_BIT <= r0in < 3 * HIDDEN_BIT
    requires r14 == 0 || r14 == SIGN_BIT
    ensures r0 == r14 + PackedHigh(r7in, r0in, r3)
  {
    var r7 := r7in + 1;
    if r7 < 0 || r7 >= 254 {              // cmp #254, bhs
      if r7 >= 254 { return r14 + INFINITY; }
      if r7 + 1 != 0 || (r0in + 2) / HIDDEN_BIT != 3 { return r14; }
      return r14 + HIDDEN_BIT;            // smallest normal
    }
    var carry := r0in % 2;                // lsrs #1
    r0 := r0in / 2;
    if carry == 1 {
      r0 := r0 + 1;                       // assume we will round up
      if r3 == 0 { r0 := r0 / 2 * 2; }    // tie
    }
    r7 := 2 * r7 + 1;                     // for implied 1
    r0 := r0 + r7 * (HIDDEN_BIT / 2);
    r0 := r0 + r14;
  }

  /** The exponent of an operand with the out-of-range exponents pushed far away. */
  function WideExponent(e: nat): int {
    if e == 0 then -16 * 256 else if e == 255 then 255 * 256 else e
  }

  lemma QuantaProduct(x: word, y: word, p: nat)
    requires 0 < Exponent(x) < 255 && 0 < Exponent(y) < 255
    requires (HIDDEN_BIT + Fraction(x)) * (HIDDEN_BIT + Fraction(y)) == p
    ensures Times(Quanta(x), Quanta(y)) == p * Pow2(Exponent(x) + Exponent(y) - 2)
  {
    QuantaOf(x);
    QuantaOf(y);
    Pow2Add(Exponent(x) - 1, Exponent(y) - 1);
    Regroup(HIDDEN_BIT + Fraction(x), Pow2(Exponent(x) - 1), HIDDEN_BIT + Fraction(y), Pow2(Exponent(y) - 1));
  }

  /** A product is below 2^47 exactly when the fraction r0 stays below one. */
  lemma ProductScale(r0: word, r3: word)
    requires r3 % 512 == 0 && r0 < 3 * HIDDEN_BIT
    ensures r0 < HIDDEN_BIT ==> Pow2(46) <= Product48(r0, r3) < Pow2(47)
    ensures r0 >= HIDDEN_BIT ==> Pow2(47) <= Product48(r0, r3) < Pow2(48)
  {
    Pow2Values();
    Pow2Add(23, 23);
    Pow2Add(24, 23);
    Pow2Add(24, 24);
  }

  /** A product r0:r3 with exponent s rounds to what the two packing paths build. */
  lemma ScaledProductIsPacked(s: nat, r0: word, r3: word)
    requires r3 % 512 == 0 && r0 < 3 * HIDDEN_BIT
    ensures RoundFlush(Product48(r0, r3) * Pow2(s), Pow2(149), 24, 255)
            == if r0 < HIDDEN_BIT then PackedLow(s - 126, r0, r3) else PackedHigh(s - 126, r0, r3)
  {
    ProductScale(r0, r3);
    if r0 < HIDDEN_BIT {
      RoundFlushAt(Product48(r0, r3), s, 149, 23, 24, 255);
      PackedLowIs(s - 126, r0, r3);
    } else {
      RoundFlushAt(Product48(r0, r3), s, 149, 24, 24, 255);
      PackedHighIs(s - 126, r0, r3);
    }
  }

  lemma Unpacked(x: word)
    ensures (x * 2 % WORD) / 0x100_0000 == Exponent(x)
    ensures (x * 2 % WORD) * 256 % WORD / 512 == Fraction(x)
  {
    var s, e, f := x / SIGN_BIT, Exponent(x), Fraction(x);
    assert x == s * SIGN_BIT + e * HIDDEN_BIT + f && s < 2;
    assert x * 2 % WORD == e * 0x100_0000 + 2 * f;
    assert (x * 2 % WORD) * 256 == e * WORD + f * 512;
    assert (e * WORD + f * 512) % WORD == f * 512;
  }

  lemma SignOfProduct(x: word, y: word)
    ensures (x / SIGN_BIT + y / SIGN_BIT) % 2 * SIGN_BIT == SignWord(Negative(x) != Negative(y))
  {
  }

  /** Packing with the widened exponents gives the promised product for every pair of operands. */
  lemma PackedIsProduct(x: word, y: word, r0: word, r3: word)
    requires r3 % 512 == 0 && r0 < 3 * HIDDEN_BIT
    requires (HIDDEN_BIT + Fraction(x)) * (HIDDEN_BIT + Fraction(y)) == Product48(r0, r3)
    ensures var r7 := WideExponent(Exponent(x)) + WideExponent(Exponent(y)) - 128;
            Product(x, y) == SignWord(Negative(x) != Negative(y))
                             + if r0 < HIDDEN_BIT then PackedLow(r7, r0, r3) else PackedHigh(r7, r0, r3)
  {
    hide RoundFlush, PackAt, Val, Fraction;
    if 0 < Exponent(x) < 255 && 0 < Exponent(y) < 255 {
      QuantaProduct(x, y, Product48(r0, r3));
      ScaledProductIsPacked(Exponent(x) + Exponent(y) - 2, r0, r3);
    } else if !Infinite(x) && !Infinite(y) {
      assert Quanta(x) == 0 || Quanta(y) == 0;
      RoundFlushZero(Pow2(149), 24, 255);
    }
  }

  /** mufp_fmul, register by register. */
  method Fmul(x: word, y: word) returns (r0: word)
    ensures r0 == Product(x, y)
  {
    hide Product, Product48, PackedLow, PackedHigh, Exponent, Fraction;
    var r14 := (x / SIGN_BIT + y / SIGN_BIT) % 2 * SIGN_BIT;  // eors, lsrs #31, lsls #31
    r0 := x * 2 % WORD;
    var r1 := y * 2 % WORD;
    SignOfProduct(x, y);
    Unpacked(x);
    Unpacked(y);
    var r2: int := r0 / 0x100_0000;                           // x exponent
    if r2 == 0 {
      r2 := r2 - 16;
      r2 := r2 * 256;
    } else if r2 == 255 {
      r2 := r2 * 256;
    }
    var r3: int := r1 / 0x100_0000;                           // y exponent
    if r3 == 0 {
      r3 := r3 - 16;
      r3 := r3 * 256;
    } else if r3 == 255 {
      r3 := r3 * 256;
    }
    var r7 := r2 + r3;
    r7 := r7 - 128;                                           // adjust bias for packing
    r0 := r0 * 256 % WORD / 512;                              // x mantissa
    r1 := r1 * 256 % WORD / 512;                              // y mantissa
    var low;
    r0, low := SignificandProduct(r0, r1);                    // r0 and r3
    PackedIsProduct(x, y, r0, low);
    if r0 / HIDDEN_BIT == 0 {                                 // lsrs #23
      r0 := PackBelowTwo(r7, r0, low, r14);
    } else {
      r0 := PackFromTwo(r7, r0, low, r14);
    }
  }

  // ---- Laws of the product ----

  lemma OneIs()
    ensures Quanta(0x3f80_0000) == Quanta(0xbf80_0000) == Pow2(149)
  {
    hide Pow2;
    Pow2Values();
    QuantaOf(0x3f80_0000);
    QuantaOf(0xbf80_0000);
    Pow2Add(23, 126);
  }

  /** Multiplying a normal number by one gives it back, by minus one its opposite. */
  lemma ProductWithOne(x: word)
    requires 0 < Exponent(x) < 255
    ensures Product(x, 0x3f80_0000) == x && Product(x, 0xbf80_0000) == (x + 0x8000_0000) % WORD
  {
    hide Quanta, Pow2, RoundPack;
    OneIs();
    Pow2Values();
    OwnWord(x);
    var one := Pow2(149);
    MulLess(0, 1, one);
    RoundPackScaled(Quanta(x), 1, one, 24);
    FlushCases(Quanta(x), 1);
    FlushCases(Quanta(x) * one, one);
  }

  /** Infinity times anything, zero included, is infinity with the sign of the two. */
  lemma TimesInfinity(x: word)
    requires x < 0x8000_0000
    ensures Product(0x7f80_0000, x) == 0x7f80_0000 && Product(0xff80_0000, x) == 0xff80_0000
  {
    hide Quanta, Round32, Exponent;
    assert Exponent(0x7f80_0000) == 255 && Exponent(0xff80_0000) == 255 by { InfiniteWords(); }
  }

  lemma InfiniteWords()
    ensures Exponent(0x7f80_0000) == 255 && Exponent(0xff80_0000) == 255
    ensures Quanta(0) == 0 && Quanta(0x8000_0000) == 0 && Exponent(0) == Exponent(0x8000_0000) == 0
  {
  }

  lemma BelowInfinity(x: word)
    requires x < 0x7f80_0000
    ensures Exponent(x) < 255
  {
  }

  /** A zero times anything finite is zero. */
  lemma TimesZero(x: word)
    requires x < 0x7f80_0000
    ensures Product(0, x) == 0 && Product(0x8000_0000, x) == 0x8000_0000
  {
    hide Quanta, RoundFlush, Exponent, Pow2;
    InfiniteWords();
    BelowInfinity(x);
    RoundFlushZero(Pow2(149), 24, 255);
  }
}
