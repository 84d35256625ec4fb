/** Binary floating-point rounding, independent of any implementation.

    A binary format is given by its precision p (24 or 53 significant bits) and its largest
    exponent field. Magnitudes are measured in quanta, the value of the smallest denormal of
    the format, so that every finite encoding has a natural number as its value. */
module Rounding {

  function Pow2(n: nat): (r: nat)
    ensures r > 0
  {
    if n == 0 then 1 else 2 * Pow2(n - 1)
  }

  lemma {:induction false} Pow2Add(a: nat, b: nat)
    ensures Pow2(a + b) == Pow2(a) * Pow2(b)
  {
    if a > 0 {
      Pow2Add(a - 1, b);
      MulAssoc(2, Pow2(a - 1), Pow2(b));
    }
  }

  lemma Pow2Values()
    ensures Pow2(9) == 0x200 && Pow2(11) == 0x800 && Pow2(23) == 0x80_0000 && Pow2(24) == 0x100_0000
    ensures Pow2(32) == 0x1_0000_0000 && Pow2(33) == 0x2_0000_0000 && Pow2(52) == 0x10_0000_0000_0000
    ensures Pow2(53) == 0x20_0000_0000_0000
  {
    assert Pow2(8) == 256;
    Pow2Add(8, 8);
    Pow2Add(16, 8);
    Pow2Add(16, 16);
    Pow2Add(24, 28);
    Pow2Add(24, 4);
  }

  lemma {:induction false} Pow2Mono(a: nat, b: nat)
    requires a <= b
    ensures Pow2(a) <= Pow2(b)
  {
    if a < b {
      Pow2Mono(a, b - 1);
    }
  }

  lemma MulAssoc(a: int, b: int, c: int)
    ensures a * (b * c) == (a * b) * c
  {
  }

  lemma Swap(a: int, b: int, c: int)
    ensures (a * b) * c == (a * c) * b
  {
  }

  lemma Negate(a: int, b: int)
    ensures (-a) * b == -(a * b)
  {
  }

  lemma MulLess(a: int, b: int, c: int)
    requires a < b && c > 0
    ensures a * c < b * c
  {
  }

  lemma MulLe(a: int, b: int, c: int)
    requires a <= b && c >= 0
    ensures a * c <= b * c
  {
  }

  lemma MulStep(a: int, c: int)
    ensures (a + 1) * c == a * c + c
  {
  }

  /** The value of a magnitude encoding b (sign removed) in quanta: exponent field b / 2^(p-1),
      fraction b % 2^(p-1), with the implied one for a non-zero exponent. */
  function Val(b: nat, p: nat): nat
    requires p > 0
  {
    var h := Pow2(p - 1);
    DivNonNegative(b, h);
    Scaled(b / h, b % h, h)
  }

  function Scaled(e: nat, m: nat, h: nat): nat {
    if e == 0 then m else (h + m) * Pow2(e - 1)
  }

  lemma DivNonNegative(n: nat, d: nat)
    requires d > 0
    ensures n / d >= 0 && 0 <= n % d < d
  {
  }

  /** q is the integer nearest to n / d, the even one of two equally near. */
  ghost predicate IsNearestEven(n: nat, d: nat, q: nat) {
    && 2 * Abs(n - q * d) <= d
    && (2 * Abs(n - q * d) == d ==> q % 2 == 0)
  }

  function Abs(x: int): nat {
    if x < 0 then -x else x
  }

  lemma SameSign(s: int, v: int, w: int, p: int)
    requires w > 0 && p > 0 && s * w == v * p
    ensures (s < 0 <==> v < 0) && (s == 0 <==> v == 0) && Abs(s) * w == Abs(v) * p
  {
    Negate(s, w);
    Negate(v, p);
    if s > 0 { MulLess(0, s, w); } else if s < 0 { MulLess(s, 0, w); }
    if v > 0 { MulLess(0, v, p); } else if v < 0 { MulLess(v, 0, p); }
  }

  /** Division rounded to nearest, ties to even. */
  function Rne(n: nat, d: nat): (q: nat)
    requires d > 0
  {
    var f, r := n / d, n % d;
    if 2 * r < d || (2 * r == d && f % 2 == 0) then f else f + 1
  }

  lemma RneIsNearest(n: nat, d: nat)
    requires d > 0
    ensures IsNearestEven(n, d, Rne(n, d))
  {
    var f, r := n / d, n % d;
    assert n == f * d + r;
    assert (f + 1) * d == f * d + d;
  }

  lemma RneSplit(f: nat, low: nat, d: nat)
    requires low < d
    ensures Rne(f * d + low, d) == if 2 * low < d || (2 * low == d && f % 2 == 0) then f else f + 1
  {
    DivModOf(f, low, d);
  }

  /** Nearest-even is unique, so any q that satisfies the definition is Rne. */
  lemma NearestIsUnique(n: nat, d: nat, q: nat, z: nat)
    requires d > 0 && IsNearestEven(n, d, q) && IsNearestEven(n, d, z)
    ensures q == z
  {
    if q < z {
      NearestApart(n, d, q, z);
    } else if z < q {
      NearestApart(n, d, z, q);
    }
  }

  lemma NearestApart(n: nat, d: nat, q: nat, z: nat)
    requires d > 0 && q < z
    ensures !IsNearestEven(n, d, q) || !IsNearestEven(n, d, z)
  {
    if z > q + 1 {
      MulLe(q + 2, z, d);
      assert (q + 2) * d == q * d + d + d;
    } else {
      assert z * d == q * d + d;
    }
  }

  lemma DivMod(n: int, d: nat)
    requires d > 0
    ensures n == (n / d) * d + n % d && 0 <= n % d < d
  {
  }

  lemma RneScaled(n: nat, d: nat, c: nat)
    requires d > 0 && c > 0
    ensures d * c > 0 && Rne(n * c, d * c) == Rne(n, d)
  {
    var f, r := n / d, n % d;
    DivMod(n, d);
    RneScaledParts(f, r, d, c);
  }

  lemma RneScaledParts(f: nat, r: nat, d: nat, c: nat)
    requires r < d && c > 0
    ensures d * c > 0 && Rne((f * d + r) * c, d * c) == Rne(f * d + r, d)
  {
    hide Rne;
    MulLess(0, d, c);
    MulLess(r, d, c);
    ScaledSplit(f, r, d, c);
    RneSplit(f, r * c, d * c);
    RneSplit(f, r, d);
  }

  lemma ScaledSplit(f: nat, r: nat, d: nat, c: nat)
    requires c > 0
    ensures (f * d + r) * c == f * (d * c) + r * c
    ensures (2 * r < d <==> 2 * (r * c) < d * c) && (2 * r == d <==> 2 * (r * c) == d * c)
  {
    MulAssoc(f, d, c);
    Distribute(f * d, r, c);
    MulAssoc(2, r, c);
    MulCompare(2 * r, d, c);
  }

  lemma Distribute(a: int, b: int, h: int)
    ensures (a + b) * h == a * h + b * h
  {
  }

  function Times(a: nat, b: nat): nat {
    a * b
  }

  lemma MulCompare(a: int, b: int, c: int)
    requires c > 0
    ensures (a < b <==> a * c < b * c) && (a == b <==> a * c == b * c)
  {
    if a < b { MulLess(a, b, c); } else if b < a { MulLess(b, a, c); }
  }

  lemma DoubleStep(d: nat, j: nat)
    requires j > 0
    ensures d * Pow2(j) == (2 * d) * Pow2(j - 1)
  {
  }

  lemma AtLeastOnce(d: nat, j: nat)
    ensures d <= d * Pow2(j)
  {
    MulLe(1, Pow2(j), d);
  }

  /** The least k with n / d < 2^(p + k): how many low bits a p-bit significand cannot hold. */
  function Scale(n: nat, d: nat, p: nat): (k: nat)
    requires d > 0
    decreases n - d
  {
    if n < d * Pow2(p) then 0 else
      AtLeastOnce(d, p);
      1 + Scale(n, 2 * d, p)
  }

  ghost predicate InScale(n: nat, d: nat, p: nat, k: nat) {
    n < d * Pow2(p + k) && (k > 0 ==> d * Pow2(p + k - 1) <= n)
  }

  lemma InScaleStep(n: nat, d: nat, p: nat, k: nat)
    requires k > 0
    ensures InScale(n, 2 * d, p, k - 1) <==> n < d * Pow2(p + k) && (k > 1 ==> d * Pow2(p + k - 1) <= n)
  {
    DoubleStep(d, p + k);
    if k > 1 { DoubleStep(d, p + k - 1); }
  }

  lemma {:induction false} ScaleInScale(n: nat, d: nat, p: nat)
    requires d > 0
    ensures InScale(n, d, p, Scale(n, d, p))
    decreases n - d
  {
    if n >= d * Pow2(p) {
      AtLeastOnce(d, p);
      ScaleInScale(n, 2 * d, p);
      InScaleStep(n, d, p, Scale(n, d, p));
    }
  }

  lemma InScaleUnique(n: nat, d: nat, p: nat, j: nat, k: nat)
    requires InScale(n, d, p, j) && InScale(n, d, p, k)
    ensures j == k
  {
    hide Pow2;
    if j < k {
      Pow2Mono(p + j, p + k - 1);
      MulLe(Pow2(p + j), Pow2(p + k - 1), d);
    } else if k < j {
      Pow2Mono(p + k, p + j - 1);
      MulLe(Pow2(p + k), Pow2(p + j - 1), d);
    }
  }

  /** The magnitude encoding of n / d quanta rounded to nearest even, with gradual underflow and
      with exponents that never run out: an encoding of (2^emax - 1) * 2^(p-1) or more overflows. */
  function RoundPack(n: nat, d: nat, p: nat): nat
    requires d > 0 && p > 0
  {
    var k := Scale(n, d, p);
    MulLess(0, Pow2(k), d);
    k * Pow2(p - 1) + Rne(n, d * Pow2(k))
  }

  // ---- What RoundPack means: no other encoding is nearer ----

  lemma RneBounds(n: nat, d: nat, z: nat)
    requires d > 0
    ensures n <= z * d ==> Rne(n, d) <= z
    ensures n >= z * d ==> Rne(n, d) >= z
  {
    hide Rne;
    var q := Rne(n, d);
    RneIsNearest(n, d);
    if q > z {
      MulLe(z + 1, q, d);
      assert (z + 1) * d == z * d + d;
    } else if q < z {
      MulLe(q + 1, z, d);
      assert (q + 1) * d == q * d + d;
    }
  }

  lemma DivModOf(a: int, b: nat, h: nat)
    requires b < h
    ensures (a * h + b) / h == a && (a * h + b) % h == b
  {
    var x := a * h + b;
    assert x == (x / h) * h + x % h;
    if x / h < a {
      MulLe(x / h + 1, a, h);
    } else if x / h > a {
      MulLe(a + 1, x / h, h);
    }
  }

  /** The significand RoundPack keeps has p bits, or is the next power of two. */
  lemma PackParts(n: nat, d: nat, p: nat) returns (k: nat, q: nat)
    requires d > 0 && p > 0
    ensures k == Scale(n, d, p) && InScale(n, d, p, k)
    ensures d * Pow2(k) > 0 && q == Rne(n, d * Pow2(k))
    ensures q <= 2 * Pow2(p - 1) && (k > 0 ==> Pow2(p - 1) <= q)
    ensures k > 0 ==> Pow2(p - 1) * (d * Pow2(k)) <= n
    ensures RoundPack(n, d, p) == k * Pow2(p - 1) + q
  {
    k := Scale(n, d, p);
    ScaleInScale(n, d, p);
    MulLess(0, Pow2(k), d);
    q := Rne(n, d * Pow2(k));
    assert d * Pow2(p + k) == Pow2(p) * (d * Pow2(k)) by { GridUnit(d, p, k); }
    RneBounds(n, d * Pow2(k), Pow2(p));
    if k > 0 {
      assert d * Pow2(p + k - 1) == Pow2(p - 1) * (d * Pow2(k)) by { GridUnit(d, p - 1, k); }
      RneBounds(n, d * Pow2(k), Pow2(p - 1));
    }
  }

  lemma GridUnit(d: nat, j: nat, k: nat)
    ensures d * Pow2(j + k) == Pow2(j) * (d * Pow2(k))
  {
    Pow2Add(j, k);
    MulAssoc(d, Pow2(j), Pow2(k));
    MulAssoc(Pow2(j), d, Pow2(k));
  }

  lemma ValOfPack(k: nat, q: nat, p: nat)
    requires p > 0 && q <= 2 * Pow2(p - 1) && (k > 0 ==> Pow2(p - 1) <= q)
    ensures Val(k * Pow2(p - 1) + q, p) == q * Pow2(k)
  {
    var h := Pow2(p - 1);
    if q < h {
      DivModOf(0, q, h);
    } else if q < 2 * h {
      assert k * h + q == (k + 1) * h + (q - h);
      DivModOf(k + 1, q - h, h);
    } else {
      assert k * h + q == (k + 2) * h + 0;
      DivModOf(k + 2, 0, h);
      assert Pow2(k + 1) == 2 * Pow2(k);
      MulAssoc(h, 2, Pow2(k));
    }
  }

  lemma ValAt(e: nat, m: nat, p: nat)
    requires p > 0 && m < Pow2(p - 1)
    ensures Val(e * Pow2(p - 1) + m, p) == if e == 0 then m else (Pow2(p - 1) + m) * Pow2(e - 1)
  {
    DivModOf(e, m, Pow2(p - 1));
  }

  lemma ValNext(e: nat, m: nat, p: nat)
    requires p > 0 && m < Pow2(p - 1)
    ensures Val(e * Pow2(p - 1) + m + 1, p)
            == Val(e * Pow2(p - 1) + m, p) + Pow2(if e == 0 then 0 else e - 1)
  {
    var h := Pow2(p - 1);
    ValAt(e, m, p);
    if m + 1 < h {
      ValAt(e, m + 1, p);
    } else {
      MulStep(e, h);
      ValAt(e + 1, 0, p);
      if e > 0 { MulAssoc(h, 2, Pow2(e - 1)); }
    }
    if e > 0 { MulStep(h + m, Pow2(e - 1)); }
  }

  lemma {:induction false} ValMono(a: nat, b: nat, p: nat)
    requires p > 0 && a <= b
    ensures Val(a, p) <= Val(b, p)
  {
    if a < b {
      ValMono(a, b - 1, p);
      DivMod(b - 1, Pow2(p - 1));
      DivNonNegative(b - 1, Pow2(p - 1));
      ValNext((b - 1) / Pow2(p - 1), (b - 1) % Pow2(p - 1), p);
    }
  }

  /** The encoding above RoundPack's is at least one grid unit away. */
  lemma NextIsFar(k: nat, q: nat, p: nat)
    requires p > 0 && q <= 2 * Pow2(p - 1) && (k > 0 ==> Pow2(p - 1) <= q)
    ensures Val(k * Pow2(p - 1) + q + 1, p) >= (q + 1) * Pow2(k)
  {
    var h := Pow2(p - 1);
    ValOfPack(k, q, p);
    MulStep(q, Pow2(k));
    if q < h {
      ValNext(0, q, p);
    } else if q < 2 * h {
      MulStep(k, h);
      ValNext(k + 1, q - h, p);
    } else {
      MulStep(k, h);
      MulStep(k + 1, h);
      ValNext(k + 2, 0, p);
    }
  }

  /** The encoding below is at least half a grid unit away. */
  lemma PreviousIsFar(k: nat, q: nat, p: nat)
    requires p > 0 && k > 0 && Pow2(p - 1) <= q <= 2 * Pow2(p - 1)
    ensures Val(k * Pow2(p - 1) + q - 1, p) <= q * Pow2(k) - Pow2(k - 1)
  {
    var h := Pow2(p - 1);
    if q > h {
      ValOfPack(k, q - 1, p);
      MulStep(q - 1, Pow2(k));
    } else {
      MulStep(k - 1, h);
      ValOfPack(k - 1, 2 * h - 1, p);
      MulStep(2 * h - 1, Pow2(k - 1));
      MulAssoc(h, 2, Pow2(k - 1));
    }
  }

  lemma PackValue(k: nat, q: nat, p: nat, d: nat)
    requires p > 0 && q <= 2 * Pow2(p - 1) && (k > 0 ==> Pow2(p - 1) <= q)
    ensures Val(k * Pow2(p - 1) + q, p) * d == q * (d * Pow2(k))
  {
    ValOfPack(k, q, p);
    Rearrange(q, Pow2(k), d);
  }

  lemma Rearrange(a: int, b: int, c: int)
    ensures (a * b) * c == a * (c * b)
  {
  }

  lemma Regroup(a: int, b: int, c: int, d: int)
    ensures (a * b) * (c * d) == (a * c) * (b * d)
  {
    MulAssoc(a * b, c, d);
    Rearrange(a, b, c);
    MulAssoc(a, c, b);
    MulAssoc(a * c, b, d);
  }

  lemma PackParity(k: nat, q: nat, p: nat)
    requires p > 1
    ensures (k * Pow2(p - 1) + q) % 2 == q % 2
  {
    EvenPart(k, Pow2(p - 2), q);
  }

  /** RoundPack is within half a grid unit, exactly half only for an even encoding. */
  lemma PackIsClose(n: nat, d: nat, p: nat)
    requires d > 0 && p > 1
    ensures var b, u := RoundPack(n, d, p), d * Pow2(Scale(n, d, p));
            && 2 * Abs(n - Val(b, p) * d) <= u
            && (2 * Abs(n - Val(b, p) * d) == u ==> b % 2 == 0)
  {
    var k, q := PackParts(n, d, p);
    RneIsNearest(n, d * Pow2(k));
    PackValue(k, q, p, d);
    PackParity(k, q, p);
  }

  /** Every other encoding is a whole grid unit away from RoundPack's, or below both it and n. */
  lemma OthersAreFar(n: nat, d: nat, p: nat, c: nat)
    requires d > 0 && p > 1 && c != RoundPack(n, d, p)
    ensures var x, u := Val(RoundPack(n, d, p), p) * d, d * Pow2(Scale(n, d, p));
            Val(c, p) * d >= x + u || Val(c, p) * d <= x - u || Val(c, p) * d < x <= n
  {
    var k, q := PackParts(n, d, p);
    PackValue(k, q, p, d);
    if c > RoundPack(n, d, p) {
      FarAbove(d, p, k, q, c);
    } else {
      FarBelow(n, d, p, k, q, c);
    }
  }

  /** RoundPack picks a nearest encoding and, between two equally near, the even one. */
  lemma RoundPackNearest(n: nat, d: nat, p: nat, c: nat)
    requires d > 0 && p > 1
    ensures var b := RoundPack(n, d, p);
            && Abs(Val(b, p) * d - n) <= Abs(Val(c, p) * d - n)
            && (c != b && Abs(Val(b, p) * d - n) == Abs(Val(c, p) * d - n) ==> b % 2 == 0)
  {
    PackIsClose(n, d, p);
    if c != RoundPack(n, d, p) { OthersAreFar(n, d, p, c); }
    Nearer(n, d * Pow2(Scale(n, d, p)), Val(RoundPack(n, d, p), p) * d, Val(c, p) * d,
      RoundPack(n, d, p) % 2 == 0, c == RoundPack(n, d, p));
  }

  lemma Nearer(n: int, u: int, x: int, y: int, even: bool, same: bool)
    requires 2 * Abs(n - x) <= u && (2 * Abs(n - x) == u ==> even)
    requires y >= x + u || y <= x - u || y < x <= n || (same && x == y)
    ensures Abs(x - n) <= Abs(y - n) && (!same && Abs(x - n) == Abs(y - n) ==> even)
  {
  }

  lemma FarAbove(d: nat, p: nat, k: nat, q: nat, c: nat)
    requires p > 0 && q <= 2 * Pow2(p - 1) && (k > 0 ==> Pow2(p - 1) <= q) && c > k * Pow2(p - 1) + q
    ensures Val(c, p) * d >= q * (d * Pow2(k)) + d * Pow2(k)
  {
    NextIsFar(k, q, p);
    ValMono(k * Pow2(p - 1) + q + 1, c, p);
    MulLe((q + 1) * Pow2(k), Val(c, p), d);
    MulAssoc(q + 1, Pow2(k), d);
    MulStep(q, d * Pow2(k));
  }

  lemma FarBelow(n: nat, d: nat, p: nat, k: nat, q: nat, c: nat)
    requires d > 0 && p > 0 && q <= 2 * Pow2(p - 1) && (k > 0 ==> Pow2(p - 1) <= q) && c < k * Pow2(p - 1) + q
    requires k > 0 ==> Pow2(p - 1) * (d * Pow2(k)) <= n
    ensures || Val(c, p) * d <= q * (d * Pow2(k)) - d * Pow2(k)
            || Val(c, p) * d < q * (d * Pow2(k)) <= n
  {
    var b := k * Pow2(p - 1) + q;
    ValMono(c, b - 1, p);
    if q > Pow2(p - 1) || k == 0 {
      ValOfPack(k, q - 1, p);
      MulLe(Val(c, p), (q - 1) * Pow2(k), d);
      MulAssoc(q - 1, Pow2(k), d);
      MulStep(q - 1, d * Pow2(k));
    } else {
      PreviousIsFar(k, q, p);
      MulLess(Val(c, p), q * Pow2(k), d);
      MulAssoc(q, Pow2(k), d);
    }
  }

  lemma EvenPart(k: nat, h: nat, q: nat)
    ensures (k * (2 * h) + q) % 2 == q % 2
  {
    assert k * (2 * h) == 2 * (k * h);
  }

  /** Only the ratio of n and d matters. */
  lemma RoundPackScaled(n: nat, d: nat, c: nat, p: nat)
    requires d > 0 && c > 0 && p > 0
    ensures d * c > 0 && RoundPack(n * c, d * c, p) == RoundPack(n, d, p)
  {
    MulLess(0, d, c);
    var k := Scale(n, d, p);
    ScaleInScale(n, d, p);
    Rearrange(d, Pow2(p + k), c);
    Rearrange(d, c, Pow2(p + k));
    MulLess(n, d * Pow2(p + k), c);
    if k > 0 {
      Rearrange(d, Pow2(p + k - 1), c);
      Rearrange(d, c, Pow2(p + k - 1));
      MulLe(d * Pow2(p + k - 1), n, c);
    }
    ScaleInScale(n * c, d * c, p);
    InScaleUnique(n * c, d * c, p, k, Scale(n * c, d * c, p));
    MulLess(0, Pow2(k), d);
    RneScaled(n, d * Pow2(k), c);
    Rearrange(d, Pow2(k), c);
    Rearrange(d, c, Pow2(k));
  }

  // ---- Rounding a significand that is wider than the format ----

  lemma ShiftedBelow(m: nat, a: nat, s: nat)
    ensures m < Pow2(a) ==> m * Pow2(s) < Pow2(a + s)
    ensures m >= Pow2(a) ==> m * Pow2(s) >= Pow2(a + s)
  {
    Pow2Add(a, s);
    if m < Pow2(a) {
      MulLess(m, Pow2(a), Pow2(s));
    } else {
      MulLe(Pow2(a), m, Pow2(s));
    }
  }

  /** m * 2^s / 2^t, where m has p + j bits and the result is normal or larger. */
  lemma PackNormal(m: nat, s: nat, t: nat, j: nat, p: nat)
    requires p > 0 && Pow2(p - 1 + j) <= m < Pow2(p + j) && s + j >= t
    ensures RoundPack(m * Pow2(s), Pow2(t), p) == (s + j - t) * Pow2(p - 1) + Rne(m, Pow2(j))
  {
    var n, d, k := m * Pow2(s), Pow2(t), s + j - t;
    ShiftedBelow(m, p + j, s);
    ShiftedBelow(m, p - 1 + j, s);
    Pow2Add(t, p + k);
    assert t + (p + k) == p + j + s;
    if k > 0 {
      Pow2Add(t, p + k - 1);
      assert t + (p + k - 1) == p - 1 + j + s;
    }
    ScaleInScale(n, d, p);
    InScaleUnique(n, d, p, k, Scale(n, d, p));
    Pow2Add(t, k);
    Pow2Add(j, s);
    assert t + k == j + s;
    RneScaled(m, Pow2(j), Pow2(s));
  }

  /** The same below the normal range, where the grid stops shrinking. */
  lemma PackTiny(m: nat, s: nat, t: nat, j: nat, p: nat)
    requires p > 0 && m < Pow2(p + j) && s + j < t
    ensures RoundPack(m * Pow2(s), Pow2(t), p) == Rne(m, Pow2(t - s))
  {
    var n, d := m * Pow2(s), Pow2(t);
    ShiftedBelow(m, p + j, s);
    Pow2Mono(p + j + s, t + p);
    Pow2Add(t, p);
    ScaleInScale(n, d, p);
    InScaleUnique(n, d, p, 0, Scale(n, d, p));
    Pow2Add(t - s, s);
    assert t - s + s == t;
    RneScaled(m, Pow2(t - s), Pow2(s));
  }

  /** One binade below normal, only a significand of all ones rounds up to the smallest normal. */
  lemma TinyRoundsUp(m: nat, j: nat, p: nat)
    requires p > 1 && m < Pow2(p + j)
    ensures Rne(m, Pow2(j + 1)) <= Pow2(p - 1)
    ensures Rne(m, Pow2(j + 1)) == Pow2(p - 1) <==> m / Pow2(j) == Pow2(p) - 1
  {
    var g, h := Pow2(j), Pow2(p - 1);
    Pow2Add(p, j);
    assert m < Pow2(p) * g;
    var z := m / g;
    assert m == z * g + m % g;
    Quotient(m, g, 2 * h);
    HalfQuotient(m, g, h);
  }

  lemma Quotient(m: nat, g: nat, z: nat)
    requires g > 0 && m < z * g
    ensures m / g < z
  {
    assert m == (m / g) * g + m % g;
    if m / g >= z { MulLe(z, m / g, g); }
  }

  lemma HalfQuotient(m: nat, g: nat, h: nat)
    requires g > 0 && h > 0 && h % 2 == 0 && m / g < 2 * h
    ensures Rne(m, 2 * g) <= h
    ensures Rne(m, 2 * g) == h <==> m / g == 2 * h - 1
  {
    var z, r := m / g, m % g;
    assert m == z * g + r;
    var f := z / 2;
    if z % 2 == 0 {
      assert z * g == f * (2 * g);
      DivModOf(f, r, 2 * g);
    } else {
      assert z == 2 * f + 1;
      assert z * g == f * (2 * g) + g;
      DivModOf(f, g + r, 2 * g);
    }
    assert f < h;
  }

  /** Two or more binades below normal, nothing rounds up to normal. */
  lemma DeepTiny(m: nat, j: nat, p: nat, t: nat)
    requires p > 1 && m < Pow2(p + j) && t >= j + 2
    ensures Rne(m, Pow2(t)) < Pow2(p - 1)
  {
    Pow2Mono(p + j, p - 2 + t);
    Pow2Add(p - 2, t);
    RneBounds(m, Pow2(t), Pow2(p - 2));
  }

  /** Moving a value by less than a quarter of its own gap does not change its rounding. */
  lemma NearbyRoundsBack(k: nat, q: nat, p: nat, n: nat)
    requires p > 1 && k > 0 && Pow2(p - 1) <= q <= 2 * Pow2(p - 1) && 4 * Abs(n - q * Pow2(k)) < Pow2(k)
    ensures RoundPack(n, 1, p) == k * Pow2(p - 1) + q
  {
    var b, c := k * Pow2(p - 1) + q, RoundPack(n, 1, p);
    ValOfPack(k, q, p);
    RoundPackNearest(n, 1, p, b);
    if c > b {
      NextIsFar(k, q, p);
      MulStep(q, Pow2(k));
      ValMono(b + 1, c, p);
    } else if c < b {
      PreviousIsFar(k, q, p);
      ValMono(c, b - 1, p);
    }
  }

  // ---- The result of an arithmetic routine that has no denormals ----

  /** n / d quanta rounded to nearest even; denormal results become zero, overflow infinity. */
  function RoundFlush(n: nat, d: nat, p: nat, emax: nat): nat
    requires d > 0 && p > 0
  {
    var b := RoundPack(n, d, p);
    if b < Pow2(p - 1) then 0
    else if b >= emax * Pow2(p - 1) then emax * Pow2(p - 1)
    else b
  }

  /** RoundFlush from a significand m of p + j bits whose leading bit has exponent field k + 1. */
  function PackAt(k: int, m: nat, j: nat, p: nat, emax: nat): nat
    requires p > 0
  {
    if k >= emax - 1 then emax * Pow2(p - 1)
    else if k >= 0 then k * Pow2(p - 1) + Rne(m, Pow2(j))
    else if k == -1 && m / Pow2(j) == Pow2(p) - 1 then Pow2(p - 1)
    else 0
  }

  lemma RoundFlushAt(m: nat, s: nat, t: nat, j: nat, p: nat, emax: nat)
    requires p > 1 && emax > 1 && Pow2(p - 1 + j) <= m < Pow2(p + j)
    ensures RoundFlush(m * Pow2(s), Pow2(t), p, emax) == PackAt(s + j - t, m, j, p, emax)
  {
    var k := s + j - t;
    MulLe(2, emax, Pow2(p - 1));
    if k >= 0 {
      PackNormal(m, s, t, j, p);
      Pow2Add(p, j);
      Pow2Add(p - 1, j);
      RneBounds(m, Pow2(j), Pow2(p));
      RneBounds(m, Pow2(j), Pow2(p - 1));
      MulLe(0, k, Pow2(p - 1));
      if k >= emax - 1 {
        MulLe(emax - 1, k, Pow2(p - 1));
        MulStep(emax - 1, Pow2(p - 1));
      } else {
        MulLe(k + 2, emax, Pow2(p - 1));
        MulStep(k, Pow2(p - 1));
        MulStep(k + 1, Pow2(p - 1));
      }
    } else {
      PackTiny(m, s, t, j, p);
      if k == -1 {
        TinyRoundsUp(m, j, p);
      } else {
        DeepTiny(m, j, p, t - s);
      }
    }
  }

  lemma RoundFlushZero(d: nat, p: nat, emax: nat)
    requires d > 0 && p > 0
    ensures RoundFlush(0, d, p, emax) == 0
  {
    MulLess(0, Pow2(p), d);
  }

  lemma ValStrict(a: nat, b: nat, d: nat, p: nat)
    requires p > 0 && d > 0 && a < b
    ensures Val(a, p) * d < Val(b, p) * d
  {
    DivMod(a, Pow2(p - 1));
    DivNonNegative(a, Pow2(p - 1));
    ValNext(a / Pow2(p - 1), a % Pow2(p - 1), p);
    ValMono(a + 1, b, p);
    MulLess(Val(a, p), Val(b, p), d);
  }

  /** Rounding reaches an even encoding exactly at the midpoint below it. */
  lemma RoundsUpToEven(n: nat, d: nat, p: nat, top: nat)
    requires d > 0 && p > 1 && top > 0 && top % 2 == 0
    ensures RoundPack(n, d, p) >= top <==> 2 * n >= Val(top - 1, p) * d + Val(top, p) * d
  {
    hide RoundPack, Val;
    var b := RoundPack(n, d, p);
    ValStrict(top - 1, top, d, p);
    if b >= top {
      ValMono(top, b, p);
      MulLe(Val(top, p), Val(b, p), d);
      RoundPackNearest(n, d, p, top - 1);
    } else {
      RoundPackNearest(n, d, p, top);
      if b < top - 1 { ValStrict(b, top - 1, d, p); }
    }
  }

  /** The value of an encoding rounds to that encoding. */
  lemma OwnRounding(b: nat, p: nat)
    requires p > 1
    ensures RoundPack(Val(b, p), 1, p) == b
  {
    hide RoundPack, Val;
    var c := RoundPack(Val(b, p), 1, p);
    RoundPackNearest(Val(b, p), 1, p, b);
    if b < c { ValStrict(b, c, 1, p); } else if c < b { ValStrict(c, b, 1, p); }
  }
}
