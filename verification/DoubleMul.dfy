/** Double precision multiplication. */
module DoubleMul {
  import opened Rounding
  import opened Float64

  // ---- The widening multiply ----

  lemma HalvesProduct(xh: nat, xl: nat, yh: nat, yl: nat)
    ensures (xh * 0x1_0000 + xl) * (yh * 0x1_0000 + yl)
            == xl * yl + (xh * yl + xl * yh) * 0x1_0000 + (xh * yh) * WORD
  {
    var a, b, c, d := xh * yh, xh * yl, xl * yh, xl * yl;
    assert (xh * 0x1_0000 + xl) * (yh * 0x1_0000 + yl)
           == (xh * 0x1_0000) * (yh * 0x1_0000) + (xh * 0x1_0000) * yl + xl * (yh * 0x1_0000) + xl * yl;
    assert (xh * 0x1_0000) * (yh * 0x1_0000) == a * WORD;
    assert (xh * 0x1_0000) * yl == b * 0x1_0000 && xl * (yh * 0x1_0000) == c * 0x1_0000;
  }

  lemma HalfProductBound(a: nat, b: nat)
    requires a < 0x1_0000 && b < 0x1_0000
    ensures a * b <= 0xfffe_0001
  {
    MulLe(a, 0xffff, b);
    MulLe(b, 0xffff, 0xffff);
  }

  /** mul32_32_64: the 64-bit product of two words from four 16-bit multiplies. */
  method Mul32(x: word, y: word) returns (zl: word, zh: word)
    ensures zh * WORD + zl == x * y
  {
    var xl, yl, xh, yh := x % 0x1_0000, y % 0x1_0000, x / 0x1_0000, y / 0x1_0000;
    HalvesProduct(xh, xl, yh, yl);
    HalfProductBound(xl, yl);
    HalfProductBound(xh, yl);
    HalfProductBound(xl, yh);
    HalfProductBound(xh, yh);
    var l, m0, h, m1 := xl * yl, xh * yl, xh * yh, xl * yh;
    zl, zh := Recombine(l, m0, m1, h);
  }

  /** The additions of the macro: l + (m0 + m1) * 2^16 + h * 2^32 as two words. */
  method Recombine(l: word, m0: word, m1: word, h: word) returns (zl: word, zh: word)
    requires l <= 0xfffe_0001 && m0 <= 0xfffe_0001 && m1 <= 0xfffe_0001 && h <= 0xfffe_0001
    requires l + (m0 + m1) * 0x1_0000 + h * WORD < WORD * WORD
    ensures zh * WORD + zl == l + (m0 + m1) * 0x1_0000 + h * WORD
  {
    var m := (m0 + m1) % WORD;
    var t2: int := h;
    if m0 + m1 >= WORD {                  // the two cross terms can overflow
      t2 := t2 + 0x1_0000;
    }
    Halves(m);
    assert (m0 + m1) * 0x1_0000 + h * WORD == m * 0x1_0000 + t2 * WORD;
    var low := m * 0x1_0000 % WORD;       // lsls #16
    var high := m / 0x1_0000;             // lsrs #16
    var carry := if low + l >= WORD then 1 else 0;
    zl := (low + l) % WORD;               // adds
    zh := high + t2 + carry;              // adcs
  }

  lemma Halves(m: word)
    ensures m * 0x1_0000 == m / 0x1_0000 * WORD + m * 0x1_0000 % WORD
  {
    var a, b := m / 0x1_0000, m % 0x1_0000;
    assert m == a * 0x1_0000 + b;
    assert m * 0x1_0000 == a * WORD + b * 0x1_0000;
  }

  // ---- The 106-bit product ----

  /** Four words, least significant first. */
  function Wide(w0: int, w1: int, w2: int, w3: int): int {
    w0 + WORD * (w1 + WORD * (w2 + WORD * w3))
  }

  lemma CrossProduct(xh: nat, xl: nat, yh: nat, yl: nat)
    ensures (xh * WORD + xl) * (yh * WORD + yl)
            == xl * yl + WORD * (xl * yh + xh * yl + WORD * (xh * yh))
  {
    var a, b, c, d := xh * yh, xh * yl, xl * yh, xl * yl;
    assert (xh * WORD + xl) * (yh * WORD + yl)
           == (xh * WORD) * (yh * WORD) + (xh * WORD) * yl + xl * (yh * WORD) + xl * yl;
    assert (xh * WORD) * (yh * WORD) == WORD * WORD * a;
    assert (xh * WORD) * yl == WORD * b && xl * (yh * WORD) == WORD * c;
  }

  /** Adding the double word ah:al into the middle of w3:w2:w1 with carries. */
  method AddMiddle(w1: word, w2: word, w3: word, al: word, ah: word) returns (v1: word, v2: word, v3: word)
    requires w1 + al + WORD * (w2 + ah + WORD * w3) < WORD * WORD * WORD
    ensures v1 + WORD * (v2 + WORD * v3) == w1 + al + WORD * (w2 + ah + WORD * w3)
  {
    var c1 := if w1 + al >= WORD then 1 else 0;
    v1 := (w1 + al) % WORD;               // adds
    var c2 := if w2 + ah + c1 >= WORD then 1 else 0;
    v2 := (w2 + ah + c1) % WORD;          // adcs
    v3 := w3 + c2;                        // adcs with 0
  }

  /** The four partial products accumulated in r12:r5:r6:r7. */
  method WideProduct(xl: word, xh: word, yl: word, yh: word) returns (r12: word, r5: word, r6: word, r7: word)
    requires xh < 0x20_0000 && yh < 0x20_0000
    ensures Wide(r12, r5, r6, r7) == (xh * WORD + xl) * (yh * WORD + yl)
  {
    CrossProduct(xh, xl, yh, yl);
    WideBound(xh, xl, yh, yl);
    r12, r5 := Mul32(xl, yl);
    r6, r7 := Mul32(xh, yh);
    var al, ah := Mul32(xl, yh);
    r5, r6, r7 := AddMiddle(r5, r6, r7, al, ah);
    al, ah := Mul32(xh, yl);
    r5, r6, r7 := AddMiddle(r5, r6, r7, al, ah);
  }

  lemma WideBound(xh: nat, xl: word, yh: nat, yl: word)
    requires xh < 0x20_0000 && yh < 0x20_0000
    ensures xh * yh <= 0x400_0000_0000 && 0 <= xl * yh <= 0x20_0000 * WORD && 0 <= xh * yl <= 0x20_0000 * WORD
  {
    MulLe(xh, 0x20_0000, yh);
    MulLe(yh, 0x20_0000, 0x20_0000);
    MulLe(xl, WORD, yh);
    MulLe(yl, WORD, xh);
    MulLe(yh, 0x20_0000, WORD);
    MulLe(xh, 0x20_0000, WORD);
  }

  // ---- Normalising ----

  lemma ShiftedWord(w: word)
    ensures w * 0x800 == w / 0x20_0000 * WORD + w * 0x800 % WORD && w / 0x20_0000 < 0x800
    ensures w * 0x800 % WORD % 0x800 == 0 && w * 0x800 % WORD <= WORD - 0x800
  {
    var high, low := w / 0x20_0000, w % 0x20_0000;
    assert w == high * 0x20_0000 + low;
    DivModOf(high, low * 0x800, WORD);
  }

  /** Shifting r7:r6:r5 left by 11: Q72 becomes Q83, the lowest word r12 stays behind. */
  method ShiftUp(r5in: word, r6: word, r7: word) returns (r5: word, r0: word, r1: word)
    requires r7 < 0x400
    ensures r5 % 0x800 == 0 && r1 < 0x20_0000
    ensures r5 + WORD * (r0 + WORD * r1) == (r5in + WORD * (r6 + WORD * r7)) * 0x800
  {
    ShiftedWord(r5in);
    ShiftedWord(r6);
    r1 := r7 * 0x800 + r6 / 0x20_0000;            // lsls #11, lsrs #21, orrs
    r0 := r6 * 0x800 % WORD + r5in / 0x20_0000;
    r5 := r5in * 0x800 % WORD;
  }

  lemma DoubledWord(w: word)
    ensures w * 2 == w / 0x8000_0000 * WORD + w * 2 % WORD && w * 2 % WORD + w / 0x8000_0000 < WORD
    ensures w / 0x8000_0000 <= 1 && w * 2 % WORD < WORD - 1
    ensures w % 0x800 == 0 ==> w * 2 % WORD % 0x1000 == 0
  {
  }

  /** One more place if the product is below two. */
  method ShiftOne(r5in: word, r0in: word, r1in: word) returns (r5: word, r0: word, r1: word)
    requires r1in < 0x10_0000 && r5in % 0x800 == 0
    ensures r5 % 0x1000 == 0 && r1 < 0x20_0000
    ensures r5 + WORD * (r0 + WORD * r1) == (r5in + WORD * (r0in + WORD * r1in)) * 2
  {
    DoubledWord(r5in);
    DoubledWord(r0in);
    var c0, c1 := r5in / 0x8000_0000, r0in / 0x8000_0000;
    r5 := r5in * 2 % WORD;                        // adds
    r0 := r0in * 2 % WORD + c0;                   // adcs
    r1 := r1in * 2 + c1;                          // adcs
  }

  // ---- Rounding and packing ----

  /** The significand q with rounding bits r5 and further sticky bits r12, rounded. */
  function Rounded(q: nat, r5: word, r12: word): nat {
    if r5 < 0x8000_0000 || (r5 == 0x8000_0000 && r12 == 0 && q % 2 == 0) then q else q + 1
  }

  function PackWords(k: int, q: nat, r5: word, r12: word): nat {
    if k >= 2046 then INFINITY
    else if k >= 0 then k * HIDDEN_BIT + Rounded(q, r5, r12)
    else if k == -1 && q == 2 * HIDDEN_BIT - 1 then HIDDEN_BIT
    else 0
  }

  /** The words hold a product in [2, 4): the low 11 bits of r5 are empty. */
  lemma RoundedHigh(p: nat, q: nat, t: nat, r5: word, r12: word)
    requires r5 == t * 0x800 && p == q * (2 * HIDDEN_BIT) + (t * WORD + r12)
    ensures Rne(p, 2 * HIDDEN_BIT) == Rounded(q, r5, r12) && p / (2 * HIDDEN_BIT) == q
  {
    RneSplit(q, t * WORD + r12, 2 * HIDDEN_BIT);
    DivModOf(q, t * WORD + r12, 2 * HIDDEN_BIT);
  }

  /** The words hold a product in [1, 2): one more bit of r5 is empty. */
  lemma RoundedLow(p: nat, q: nat, t: nat, r5: word, r12: word)
    requires r5 == t * 0x1000 && p == q * HIDDEN_BIT + (t * WORD + r12)
    ensures Rne(p, HIDDEN_BIT) == Rounded(q, r5, r12) && p / HIDDEN_BIT == q
  {
    RneSplit(q, t * WORD + r12, HIDDEN_BIT);
    DivModOf(q, t * WORD + r12, HIDDEN_BIT);
  }

  lemma PackWordsIs(p: nat, j: nat, k: int, q: nat, r5: word, r12: word)
    requires Rne(p, Pow2(j)) == Rounded(q, r5, r12) && p / Pow2(j) == q
    ensures PackAt(k, p, j, 53, 2047) == PackWords(k, q, r5, r12)
  {
    hide Rounded, Rne;
    Pow2Values();
  }

  /** The end of the routine: exponent in r3, mantissa r1:r0 with rounding word r5. */
  method Pack(r3: int, r1in: word, r0in: word, r5in: word, r12: word, r4: nat) returns (r0: word, r1: word)
    requires 0x10_0000 <= r1in < 0x20_0000 && r4 < 2
    ensures r1 * WORD + r0 == r4 * SIGN_BIT + PackWords(r3, r1in * WORD + r0in, r5in, r12)
  {
    if r3 < 0 || r3 >= 0x7fe {
      r0, r1 := PackOutOfRange(r3, r1in, r0in, r4);
      return;
    }
    var high;
    r0, high := RoundUp(r1in, r0in, r5in, r12);
    r1 := high + r3 * 0x10_0000 + r4 * 0x8000_0000; // lsls #20, adds; lsls #31, add
  }

  method RoundUp(r1in: word, r0in: word, r5in: word, r12: word) returns (r0: word, r1: word)
    requires r1in < 0x20_0000
    ensures r1 <= 0x20_0000 && r1 * WORD + r0 == Rounded(r1in * WORD + r0in, r5in, r12)
    ensures r1 == 0x20_0000 ==> r0 == 0
  {
    r0, r1 := r0in, r1in;
    assert (r1in * WORD + r0in) % 2 == r0in % 2;
    var carry, r5 := r5in / 0x8000_0000, r5in * 2 % WORD; // lsls #1
    if carry == 1 {
      r0 := (r0in + 1) % WORD;                            // adds
      if r0in == 0xffff_ffff { r1 := r1 + 1; }            // adcs: round up
      if r5 == 0 && r12 == 0 { r0 := r0 / 2 * 2; }        // round to even
    }
  }

  method PackOutOfRange(r3: int, r1in: word, r0in: word, r4: nat) returns (r0: word, r1: word)
    requires 0x10_0000 <= r1in < 0x20_0000 && r4 < 2 && (r3 < 0 || r3 >= 0x7fe)
    ensures r1 * WORD + r0 == r4 * SIGN_BIT + PackWords(r3, r1in * WORD + r0in, 0, 0)
  {
    if r3 >= 0x7fe {
      return 0, 0x7ff * 0x10_0000 + r4 * 0x8000_0000;     // overflow
    }
    // would-be zero exponent and an all-ones mantissa rounds up to the smallest normal
    if r3 + 1 == 0 && (r0in + 1) % WORD == 0 && (r1in + 1) / 0x20_0000 != 0 {
      return 0, (r1in + 1) / 2 + r4 * 0x8000_0000;
    }
    return 0, r4 * 0x8000_0000;
  }

  // ---- The whole routine ----

  /** An operand's exponent with zero and infinity pushed far out of range. */
  function WideExponent(e: nat): int {
    if e == 0 || e == 2047 then (e - 128) * 4096 else e
  }

  /** The significand the routine multiplies by: exactly one for zero and infinity. */
  function Significand(x: double): nat {
    if Exponent(x) == 0 || Infinite(x) then HIDDEN_BIT else HIDDEN_BIT + Fraction(x)
  }

  /** mdunpack. */
  method Unpack(lo: word, hi: word) returns (ra: word, rb: word, re: int, rs: nat)
    ensures var x := hi * WORD + lo;
            && rb * WORD + ra == Significand(x) && 0x10_0000 <= rb < 0x20_0000
            && re == WideExponent(Exponent(x)) && rs == if Negative(x) then 1 else 0
  {
    UnpackFields(lo, hi);
    re := hi / 0x10_0000;                           // lsrs #20
    rb := (hi - (re - 1) * 0x10_0000) % WORD;       // subs: clear sign and exponent, insert 1
    ra := lo;
    rs := re / 0x800;                               // sign
    re := re % 0x800;                               // lsls #21, lsrs #21
    if re == 0 || (re + 1) / 0x800 != 0 {
      ra, rb := 0, 0x10_0000;
      re := (re - 128) * 4096;
    }
  }

  lemma UnpackFields(lo: word, hi: word)
    ensures var x := hi * WORD + lo;
            && Exponent(x) == hi / 0x10_0000 % 0x800 && Fraction(x) == hi % 0x10_0000 * WORD + lo
            && (Negative(x) <==> hi / 0x10_0000 / 0x800 == 1)
    ensures (hi - (hi / 0x10_0000 - 1) * 0x10_0000) % WORD == hi % 0x10_0000 + 0x10_0000
  {
    var e, f := hi / 0x10_0000, hi % 0x10_0000;
    assert hi == e * 0x10_0000 + f;
    var x := hi * WORD + lo;
    assert x == e * HIDDEN_BIT + (f * WORD + lo);
    DivModOf(e, f * WORD + lo, HIDDEN_BIT);
  }

  lemma QuantaProduct(x: double, y: double, p: nat)
    requires 0 < Exponent(x) < 2047 && 0 < Exponent(y) < 2047 && p == Significand(x) * Significand(y)
    ensures Times(Quanta(x), Quanta(y)) == p * Pow2(Exponent(x) + Exponent(y) - 2)
  {
    QuantaOf(x);
    QuantaOf(y);
    Pow2Add(Exponent(x) - 1, Exponent(y) - 1);
    Regroup(Significand(x), Pow2(Exponent(x) - 1), Significand(y), Pow2(Exponent(y) - 1));
  }

  /** The width of a significand product and which packing it needs. */
  function PackedProduct(p: nat, e: int): nat {
    if p >= 2 * HIDDEN_BIT * HIDDEN_BIT then PackAt(e - 1023, p, 53, 53, 2047)
    else PackAt(e - 1024, p, 52, 53, 2047)
  }

  lemma ScaledProduct(p: nat, s: nat)
    requires HIDDEN_BIT * HIDDEN_BIT <= p < 4 * HIDDEN_BIT * HIDDEN_BIT
    ensures RoundFlush(p * Pow2(s), Pow2(1074), 53, 2047) == PackedProduct(p, s + 2)
  {
    Pow2Values();
    Pow2Add(52, 52);
    Pow2Add(53, 52);
    Pow2Add(53, 53);
    RoundFlushAt(p, s, 1074, if p >= 2 * HIDDEN_BIT * HIDDEN_BIT then 53 else 52, 53, 2047);
  }

  lemma FarExponent(p: nat, e: int)
    ensures e >= 4000 ==> PackedProduct(p, e) == INFINITY
    ensures e <= 1000 ==> PackedProduct(p, e) == 0
  {
    Pow2Values();
  }

  /** For every pair of operands, packing by the wide exponents gives the promised product. */
  lemma PackedIsProduct(x: double, y: double, p: nat)
    requires p == Significand(x) * Significand(y) && HIDDEN_BIT * HIDDEN_BIT <= p < 4 * HIDDEN_BIT * HIDDEN_BIT
    ensures Product(x, y) == SignBit(Negative(x) != Negative(y))
                             + PackedProduct(p, WideExponent(Exponent(x)) + WideExponent(Exponent(y)))
  {
    hide RoundFlush, PackedProduct, Quanta, Significand;
    var e := WideExponent(Exponent(x)) + WideExponent(Exponent(y));
    if 0 < Exponent(x) < 2047 && 0 < Exponent(y) < 2047 {
      QuantaProduct(x, y, p);
      ScaledProduct(p, e - 2);
    } else {
      FarExponent(p, e);
      if !Infinite(x) && !Infinite(y) { ZeroProduct(x, y); }
    }
  }

  lemma ZeroProduct(x: double, y: double)
    requires Exponent(x) == 0 || Exponent(y) == 0
    ensures RoundFlush(Times(Quanta(x), Quanta(y)), Pow2(1074), 53, 2047) == 0
  {
    assert Quanta(x) == 0 || Quanta(y) == 0;
    RoundFlushZero(Pow2(1074), 53, 2047);
  }

  lemma SignificandProductBounds(a: nat, b: nat)
    requires HIDDEN_BIT <= a < 2 * HIDDEN_BIT && HIDDEN_BIT <= b < 2 * HIDDEN_BIT
    ensures HIDDEN_BIT * HIDDEN_BIT <= a * b < 4 * HIDDEN_BIT * HIDDEN_BIT
  {
    MulLe(HIDDEN_BIT, a, HIDDEN_BIT);
    MulLe(HIDDEN_BIT, b, a);
    MulLess(a, 2 * HIDDEN_BIT, b);
    MulLess(b, 2 * HIDDEN_BIT, 2 * HIDDEN_BIT);
  }

  /** What the normalised words hold: the product p of r3 - 0x3ff, ready to round. */
  ghost predicate ReadyToRound(p: nat, e: int, r3: int, q: nat, w5: word, r12: word) {
    && HIDDEN_BIT <= q < 2 * HIDDEN_BIT
    && PackedProduct(p, e) == PackWords(r3 - 0x3ff, q, w5, r12)
  }

  lemma LowIsReady(p: nat, e: int, t: nat, q: nat, w5: word, r12: word)
    requires p == t * WORD + r12 && w5 + WORD * q == t * 0x1000 && w5 % 0x1000 == 0
    requires HIDDEN_BIT * HIDDEN_BIT <= p && q < 2 * HIDDEN_BIT
    ensures ReadyToRound(p, e, e - 1, q, w5, r12)
  {
    Pow2Values();
    LowSplit(t, q, w5);
    RoundedLow(p, q, w5 / 0x1000, w5, r12);
    PackWordsIs(p, 52, e - 1024, q, w5, r12);
  }

  lemma HighIsReady(p: nat, e: int, t: nat, q: nat, w5: word, r12: word)
    requires p == t * WORD + r12 && w5 + WORD * q == t * 0x800 && w5 % 0x800 == 0
    requires p < 4 * HIDDEN_BIT * HIDDEN_BIT && HIDDEN_BIT <= q
    ensures ReadyToRound(p, e, e, q, w5, r12)
  {
    Pow2Values();
    HighSplit(t, q, w5);
    RoundedHigh(p, q, w5 / 0x800, w5, r12);
    PackWordsIs(p, 53, e - 1023, q, w5, r12);
  }

  /** From the four-word product to a mantissa of 53 bits over a rounding word. */
  method Normalise(r12: word, r5: word, r6: word, r7: word, e: int)
    returns (w5: word, w0: word, w1: word, r3: int)
    requires var p := Wide(r12, r5, r6, r7); HIDDEN_BIT * HIDDEN_BIT <= p < 4 * HIDDEN_BIT * HIDDEN_BIT
    ensures 0x10_0000 <= w1 < 0x20_0000
    ensures ReadyToRound(Wide(r12, r5, r6, r7), e, r3, w1 * WORD + w0, w5, r12)
  {
    ghost var p, t := Wide(r12, r5, r6, r7), r5 + WORD * (r6 + WORD * r7);
    assert p == t * WORD + r12;
    assert t < 0x400 * WORD * WORD;
    w5, w0, w1 := ShiftUp(r5, r6, r7);
    r3 := e;
    if w1 / 0x10_0000 == 0 {                        // lsrs #20: below two
      w5, w0, w1 := ShiftOne(w5, w0, w1);
      r3 := r3 - 1;                                 // correct exponent
      LowIsReady(p, e, t, w1 * WORD + w0, w5, r12);
    } else {
      HighIsReady(p, e, t, w1 * WORD + w0, w5, r12);
    }
  }

  lemma LowSplit(t: nat, q: nat, w5: word)
    requires w5 + WORD * q == t * 0x1000 && w5 % 0x1000 == 0
    ensures w5 == w5 / 0x1000 * 0x1000 && t * WORD == q * HIDDEN_BIT + w5 / 0x1000 * WORD
  {
  }

  lemma HighSplit(t: nat, q: nat, w5: word)
    requires w5 + WORD * q == t * 0x800 && w5 % 0x800 == 0
    ensures w5 == w5 / 0x800 * 0x800 && t * WORD == q * (2 * HIDDEN_BIT) + w5 / 0x800 * WORD
  {
  }

  /** mufp_dmul: the operands and the result are pairs of words, low word first. */
  method Dmul(xl: word, xh: word, yl: word, yh: word) returns (r0: word, r1: word)
    ensures r1 * WORD + r0 == Product(xh * WORD + xl, yh * WORD + yl)
  {
    hide Product, Wide, Significand, PackedProduct, PackWords, WideExponent, Exponent, Fraction;
    var xa, xb, xe, xs := Unpack(xl, xh);
    var ya, yb, ye, ys := Unpack(yl, yh);
    var r7 := (xs + ys) % 2;                        // eors: sign of result
    var r4 := ye + xe;                              // exponent of result
    var w0, w1, w2, w3 := WideProduct(xa, xb, ya, yb);
    SignificandProductBounds(Significand(xh * WORD + xl), Significand(yh * WORD + yl));
    PackedIsProduct(xh * WORD + xl, yh * WORD + yl, Wide(w0, w1, w2, w3));
    var r5, m0, m1, r3 := Normalise(w0, w1, w2, w3, r4);
    assert r7 * SIGN_BIT == SignBit(Negative(xh * WORD + xl) != Negative(yh * WORD + yl));
    r3 := r3 - 0x3ff;                               // correct for exponent bias
    r0, r1 := Pack(r3, m1, m0, r5, w0, r7);
  }

  // ---- Laws of the product ----

  lemma OneIs()
    ensures Quanta(0x3ff0_0000_0000_0000) == Quanta(0xbff0_0000_0000_0000) == Pow2(1074)
  {
    hide Pow2;
    Pow2Values();
    QuantaOf(0x3ff0_0000_0000_0000);
    QuantaOf(0xbff0_0000_0000_0000);
    Pow2Add(52, 1022);
  }

  /** Multiplying a normal number by one gives it back, by minus one its opposite. */
  lemma ProductWithOne(x: double)
    requires 0 < Exponent(x) < 2047
    ensures Product(x, 0x3ff0_0000_0000_0000) == x
    ensures Product(x, 0xbff0_0000_0000_0000) == (x + 0x8000_0000_0000_0000) % 0x1_0000_0000_0000_0000
  {
    hide Quanta, Pow2, RoundPack;
    OneIs();
    Pow2Values();
    OwnDouble(x);
    var one := Pow2(1074);
    MulLess(0, 1, one);
    RoundPackScaled(Quanta(x), 1, one, 53);
    FlushCases(Quanta(x), 1);
    FlushCases(Quanta(x) * one, one);
  }

  /** Infinity times anything, zero included, is infinity with the sign of the two. */
  lemma TimesInfinity(x: double)
    requires x < 0x8000_0000_0000_0000
    ensures Product(0x7ff0_0000_0000_0000, x) == 0x7ff0_0000_0000_0000
            && Product(0xfff0_0000_0000_0000, x) == 0xfff0_0000_0000_0000
  {
    hide Quanta, Round64, Exponent;
    assert Exponent(0x7ff0_0000_0000_0000) == 2047 && Exponent(0xfff0_0000_0000_0000) == 2047 by { InfiniteWords(); }
  }

  lemma InfiniteWords()
    ensures Exponent(0x7ff0_0000_0000_0000) == 2047 && Exponent(0xfff0_0000_0000_0000) == 2047
    ensures Quanta(0) == 0 && Quanta(0x8000_0000_0000_0000) == 0 && Exponent(0) == Exponent(0x8000_0000_0000_0000) == 0
  {
  }

  lemma BelowInfinity(x: double)
    requires x < 0x7ff0_0000_0000_0000
    ensures Exponent(x) < 2047
  {
  }

  /** A zero times anything finite is zero. */
  lemma TimesZero(x: double)
    requires x < 0x7ff0_0000_0000_0000
    ensures Product(0, x) == 0 && Product(0x8000_0000_0000_0000, x) == 0x8000_0000_0000_0000
  {
    hide Quanta, RoundFlush, Exponent, Pow2;
    InfiniteWords();
    BelowInfinity(x);
    RoundFlushZero(Pow2(1074), 53, 2047);
  }
}
