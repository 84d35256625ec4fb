/** IEEE single precision as the bootrom's floating-point routines see it: a 32-bit word holds a
    sign, an 8-bit exponent field and a 23-bit fraction; an exponent field of 0 stands for zero
    whatever the fraction, and one of 255 for infinity whatever the fraction. */
module Float32 {
  import opened Rounding

  const WORD := 0x1_0000_0000
  const SIGN_BIT := 0x8000_0000
  const HIDDEN_BIT := 0x80_0000
  const INFINITY := 0x7f80_0000

  type word = x: int | 0 <= x < 0x1_0000_0000

  predicate Negative(x: word) { x >= SIGN_BIT }

  function Magnitude(x: word): nat { x % SIGN_BIT }

  function Exponent(x: word): nat { x / HIDDEN_BIT % 256 }

  function Fraction(x: word): nat { x % HIDDEN_BIT }

  predicate Infinite(x: word) { Exponent(x) == 255 }

  /** The magnitude of a finite operand in units of 2^-149. */
  function Quanta(x: word): nat {
    if Exponent(x) == 0 then 0 else Val(Magnitude(x), 24)
  }

  function SignWord(negative: bool): word { if negative then SIGN_BIT else 0 }

  /** The word for sign and n / d quanta. */
  function Round32(negative: bool, n: nat, d: nat): (r: word)
    requires d > 0
  {
    RoundBound(n, d);
    SignWord(negative) + RoundFlush(n, d, 24, 255)
  }

  lemma RoundBound(n: nat, d: nat)
    requires d > 0
    ensures RoundFlush(n, d, 24, 255) <= INFINITY
  {
    FlushCases(n, d);
  }

  lemma FlushCases(n: nat, d: nat)
    requires d > 0
    ensures var b := RoundPack(n, d, 24);
            RoundFlush(n, d, 24, 255) == if b < HIDDEN_BIT then 0 else if b >= INFINITY then INFINITY else b
  {
    hide RoundPack;
    Pow2Values();
  }

  lemma QuantaOf(x: word)
    requires 0 < Exponent(x) < 255
    ensures Quanta(x) == (HIDDEN_BIT + Fraction(x)) * Pow2(Exponent(x) - 1)
  {
    Pow2Values();
    Fields(x);
    ValAt(Exponent(x), Fraction(x), 24);
  }

  lemma Fields(x: word)
    ensures Magnitude(x) == Exponent(x) * HIDDEN_BIT + Fraction(x)
  {
  }

  /** What Round32 means: among all finite words no magnitude is nearer, and of two equally near
      the one kept is even. Only a result flushed to zero or overflowed escapes this. */
  lemma Round32IsNearest(negative: bool, n: nat, d: nat, c: word)
    requires d > 0
    ensures Negative(Round32(negative, n, d)) <==> negative
    ensures var b := Magnitude(Round32(negative, n, d));
            0 < b < INFINITY ==>
            && Abs(Val(b, 24) * d - n) <= Abs(Val(Magnitude(c), 24) * d - n)
            && (Magnitude(c) != b && Abs(Val(b, 24) * d - n) == Abs(Val(Magnitude(c), 24) * d - n) ==> b % 2 == 0)
  {
    hide RoundPack, Val, RoundFlush;
    FlushCases(n, d);
    RoundPackNearest(n, d, 24, Magnitude(c));
  }

  /** Zero is returned exactly below the midpoint under the smallest normal, and infinity exactly
      from the midpoint above the largest finite magnitude. */
  lemma Round32Extremes(negative: bool, n: nat, d: nat)
    requires d > 0
    ensures Magnitude(Round32(negative, n, d)) == 0 <==> 2 * n < Val(HIDDEN_BIT - 1, 24) * d + Val(HIDDEN_BIT, 24) * d
    ensures Magnitude(Round32(negative, n, d)) == INFINITY
            <==> 2 * n >= Val(INFINITY - 1, 24) * d + Val(INFINITY, 24) * d
  {
    hide RoundPack, Val, RoundFlush;
    FlushCases(n, d);
    RoundsUpToEven(n, d, 24, HIDDEN_BIT);
    RoundsUpToEven(n, d, 24, INFINITY);
  }

  /** A normal word is the rounding of its own value. */
  lemma OwnWord(x: word)
    requires 0 < Exponent(x) < 255
    ensures Round32(Negative(x), Quanta(x), 1) == x
  {
    hide RoundFlush, RoundPack, Val;
    OwnRounding(Magnitude(x), 24);
    FlushCases(Quanta(x), 1);
    Fields(x);
  }

  lemma ValuePositive(x: word)
    requires 0 < Exponent(x) < 255
    ensures Quanta(x) > 0
  {
    hide Pow2;
    QuantaOf(x);
    MulLess(0, HIDDEN_BIT + Fraction(x), Pow2(Exponent(x) - 1));
  }
}
