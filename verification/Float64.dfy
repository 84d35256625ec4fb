/** IEEE double precision as a 64-bit number: sign, 11-bit exponent field, 52-bit fraction.
    As in single precision an exponent field of 0 stands for zero and one of 2047 for infinity. */
module Float64 {
  import opened Rounding

  const WORD := 0x1_0000_0000
  const SIGN_BIT := 0x8000_0000_0000_0000
  const HIDDEN_BIT := 0x10_0000_0000_0000
  const INFINITY := 0x7ff0_0000_0000_0000

  type word = x: int | 0 <= x < 0x1_0000_0000
  type double = x: int | 0 <= x < 0x1_0000_0000_0000_0000

  predicate Negative(x: double) { x >= SIGN_BIT }

  function Exponent(x: double): nat { x / HIDDEN_BIT % 2048 }

  function Fraction(x: double): nat { x % HIDDEN_BIT }

  predicate Infinite(x: double) { Exponent(x) == 2047 }

  function Magnitude(x: double): nat { x % SIGN_BIT }

  /** The magnitude of a finite operand in units of 2^-1074. */
  function Quanta(x: double): nat {
    if Exponent(x) == 0 then 0 else Val(Magnitude(x), 53)
  }

  function SignBit(negative: bool): double { if negative then SIGN_BIT else 0 }

  /** The double for sign and n / d quanta. */
  function Round64(negative: bool, n: nat, d: nat): (r: double)
    requires d > 0
  {
    RoundBound(n, d);
    SignBit(negative) + RoundFlush(n, d, 53, 2047)
  }

  lemma RoundBound(n: nat, d: nat)
    requires d > 0
    ensures RoundFlush(n, d, 53, 2047) <= INFINITY
  {
    FlushCases(n, d);
  }

  lemma FlushCases(n: nat, d: nat)
    requires d > 0
    ensures var b := RoundPack(n, d, 53);
            RoundFlush(n, d, 53, 2047) == if b < HIDDEN_BIT then 0 else if b >= INFINITY then INFINITY else b
  {
    hide RoundPack;
    Pow2Values();
  }

  /** What Round64 means: among all finite doubles no magnitude is nearer, and of two equally near
      the one kept is even. Only a result flushed to zero or overflowed escapes this. */
  lemma Round64IsNearest(negative: bool, n: nat, d: nat, c: double)
    requires d > 0
    ensures Negative(Round64(negative, n, d)) <==> negative
    ensures var b := Magnitude(Round64(negative, n, d));
            0 < b < INFINITY ==>
            && Abs(Val(b, 53) * d - n) <= Abs(Val(Magnitude(c), 53) * d - n)
            && (Magnitude(c) != b && Abs(Val(b, 53) * d - n) == Abs(Val(Magnitude(c), 53) * d - n) ==> b % 2 == 0)
  {
    hide RoundPack, Val, RoundFlush;
    FlushCases(n, d);
    RoundPackNearest(n, d, 53, Magnitude(c));
  }

  /** Zero is returned exactly below the midpoint under the smallest normal, and infinity exactly
      from the midpoint above the largest finite magnitude. */
  lemma Round64Extremes(negative: bool, n: nat, d: nat)
    requires d > 0
    ensures Magnitude(Round64(negative, n, d)) == 0 <==> 2 * n < Val(HIDDEN_BIT - 1, 53) * d + Val(HIDDEN_BIT, 53) * d
    ensures Magnitude(Round64(negative, n, d)) == INFINITY
            <==> 2 * n >= Val(INFINITY - 1, 53) * d + Val(INFINITY, 53) * d
  {
    hide RoundPack, Val, RoundFlush;
    FlushCases(n, d);
    RoundsUpToEven(n, d, 53, HIDDEN_BIT);
    RoundsUpToEven(n, d, 53, INFINITY);
  }

  lemma QuantaOf(x: double)
    requires 0 < Exponent(x) < 2047
    ensures Quanta(x) == (HIDDEN_BIT + Fraction(x)) * Pow2(Exponent(x) - 1)
  {
    Pow2Values();
    Fields(x);
    ValAt(Exponent(x), Fraction(x), 53);
  }

  lemma Fields(x: double)
    ensures Magnitude(x) == Exponent(x) * HIDDEN_BIT + Fraction(x)
  {
  }

  /** The product a multiplication promises: exact, then rounded to nearest even. */
  function Product(x: double, y: double): double {
    var negative := Negative(x) != Negative(y);
    if Infinite(x) || Infinite(y) then SignBit(negative) + INFINITY
    else Round64(negative, Times(Quanta(x), Quanta(y)), Pow2(1074))
  }

  /** A normal double is the rounding of its own value. */
  lemma OwnDouble(x: double)
    requires 0 < Exponent(x) < 2047
    ensures Round64(Negative(x), Quanta(x), 1) == x
  {
    hide RoundFlush, RoundPack, Val;
    OwnRounding(Magnitude(x), 53);
    FlushCases(Quanta(x), 1);
    Fields(x);
  }

  lemma ValuePositive(x: double)
    requires 0 < Exponent(x) < 2047
    ensures Quanta(x) > 0
  {
    hide Pow2;
    QuantaOf(x);
    MulLess(0, HIDDEN_BIT + Fraction(x), Pow2(Exponent(x) - 1));
  }
}
