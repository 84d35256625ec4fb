/** The checksum the boot ROM takes of the second-stage boot loader. A register is its 32 bits and
    a byte its 8, most significant first; a polynomial is its coefficients, leading one first. */
module Crc {
  type bits = seq<bool>

  type word = w: seq<bool> | |w| == 32 witness Zeros(32)

  type byte = b: seq<bool> | |b| == 8 witness Zeros(8)

  function Zeros(n: nat): (r: bits)
    ensures |r| == n && forall i :: 0 <= i < n ==> !r[i]
  {
    seq(n, _ => false)
  }

  function Xor(a: bits, b: bits): (r: bits)
    requires |a| == |b|
    ensures |r| == |a| && forall i :: 0 <= i < |a| ==> r[i] == (a[i] != b[i])
  {
    seq(|a|, i requires 0 <= i < |a| => a[i] != b[i])
  }

  function Digit(h: nat): (r: bits)
    requires h < 16
    ensures |r| == 4
  {
    [h / 8 == 1, h / 4 % 2 == 1, h / 2 % 2 == 1, h % 2 == 1]
  }

  /** 0x04c11db7, the polynomial without its term of degree 32. */
  const POLYNOMIAL: word :=
    Digit(0x0) + Digit(0x4) + Digit(0xc) + Digit(0x1) + Digit(0x1) + Digit(0xd) + Digit(0xb) + Digit(0x7)

  /** The number the bits of a word stand for. */
  function Value(b: bits): nat {
    if b == [] then 0 else 2 * Value(b[..|b| - 1]) + if b[|b| - 1] then 1 else 0
  }

  lemma DigitValue(front: bits, h: nat)
    requires h < 16
    ensures Value(front + Digit(h)) == 16 * Value(front) + h
  {
    var d := Digit(h);
    var x1, x2, x3, x4 := front + d[..1], front + d[..2], front + d[..3], front + d;
    assert x1[..|front|] == front && x2[..|front| + 1] == x1 && x3[..|front| + 2] == x2 && x4[..|front| + 3] == x3;
    assert Value(x1) == 2 * Value(front) + (if h / 8 == 1 then 1 else 0);
    assert Value(x2) == 2 * Value(x1) + (if h / 4 % 2 == 1 then 1 else 0);
    assert Value(x3) == 2 * Value(x2) + (if h / 2 % 2 == 1 then 1 else 0);
    assert Value(x4) == 2 * Value(x3) + (if h % 2 == 1 then 1 else 0);
  }

  lemma PolynomialIs()
    ensures Value(POLYNOMIAL) == 0x04c1_1db7
  {
    hide Value, Digit;
    DigitValue([], 0x0);
    DigitValue(Digit(0x0), 0x4);
    DigitValue(Digit(0x0) + Digit(0x4), 0xc);
    DigitValue(Digit(0x0) + Digit(0x4) + Digit(0xc), 0x1);
    DigitValue(Digit(0x0) + Digit(0x4) + Digit(0xc) + Digit(0x1), 0x1);
    DigitValue(Digit(0x0) + Digit(0x4) + Digit(0xc) + Digit(0x1) + Digit(0x1), 0xd);
    DigitValue(Digit(0x0) + Digit(0x4) + Digit(0xc) + Digit(0x1) + Digit(0x1) + Digit(0xd), 0xb);
    DigitValue(Digit(0x0) + Digit(0x4) + Digit(0xc) + Digit(0x1) + Digit(0x1) + Digit(0xd) + Digit(0xb), 0x7);
    assert [] + Digit(0x0) == Digit(0x0);
    NoValue();
  }

  lemma NoValue()
    ensures Value([]) == 0
  {
  }

  // ---- Division of polynomials over the field of two elements ----

  /** Schoolbook division: as long as the degree is 32 or more, subtract the polynomial shifted to
      the leading coefficient if that is set, and go on below it. */
  function Remainder(p: bits): (r: word)
    requires |p| >= 32
    decreases |p|
  {
    if |p| == 32 then p else Remainder(Reduced(p))
  }

  function Reduced(p: bits): (r: bits)
    requires |p| > 32
    ensures |r| == |p| - 1
  {
    if p[0] then Xor(p[1..], POLYNOMIAL + Zeros(|p| - 33)) else p[1..]
  }

  /** q times x^32 + POLYNOMIAL. */
  function Product(q: bits): (r: bits)
    ensures |r| == |q| + 32
  {
    if q == [] then Zeros(32)
    else
      var rest := [false] + Product(q[1..]);
      if q[0] then Xor([true] + POLYNOMIAL + Zeros(|q| - 1), rest) else rest
  }

  /** Every polynomial is a multiple plus its remainder. */
  lemma {:induction false} Division(p: bits) returns (q: bits)
    requires |p| >= 32
    ensures |q| == |p| - 32 && p == Xor(Product(q), Zeros(|q|) + Remainder(p))
    decreases |p|
  {
    if |p| == 32 {
      q := [];
    } else {
      var t := Division(Reduced(p));
      q := [p[0]] + t;
      assert q[1..] == t;
      DivisionStep(p, t, Remainder(p));
    }
  }

  lemma XorTwice(a: bits, g: bits)
    requires |a| == |g|
    ensures Xor(Xor(a, g), g) == a
  {
  }

  lemma ProductOf(b: bool, t: bits)
    ensures Product([b] + t) ==
            if b then Xor([true] + (POLYNOMIAL + Zeros(|t|)), [false] + Product(t)) else [false] + Product(t)
  {
    hide Xor, Zeros, Digit;
    assert ([b] + t)[1..] == t && ([b] + t)[0] == b;
    PutFirst(POLYNOMIAL, Zeros(|t|));
  }

  lemma PutFirst(p: bits, z: bits)
    ensures [true] + p + z == [true] + (p + z)
  {
  }

  lemma ProductStep(b: bool, t: bits, r: word)
    ensures var x, g := Xor(Product(t), Zeros(|t|) + r), POLYNOMIAL + Zeros(|t|);
            Xor(Product([b] + t), Zeros(|t| + 1) + r) == [b] + if b then Xor(x, g) else x
  {
    hide Product, Xor;
    ProductOf(b, t);
    LongerXor(POLYNOMIAL + Zeros(|t|), Product(t), Zeros(|t|) + r);
    ShiftedXor(Product(t), Zeros(|t|) + r);
    assert Zeros(|t| + 1) + r == [false] + (Zeros(|t|) + r);
  }

  lemma ShiftedXor(q: bits, z: bits)
    requires |q| == |z|
    ensures Xor([false] + q, [false] + z) == [false] + Xor(q, z)
  {
  }

  lemma LongerXor(g: bits, q: bits, z: bits)
    requires |g| == |q| == |z|
    ensures Xor(Xor([true] + g, [false] + q), [false] + z) == [true] + Xor(Xor(q, z), g)
  {
  }

  lemma DivisionStep(p: bits, t: bits, r: word)
    requires |p| == |t| + 33
    ensures Reduced(p) == Xor(Product(t), Zeros(|t|) + r) <==> p == Xor(Product([p[0]] + t), Zeros(|t| + 1) + r)
  {
    hide Product, Xor;
    ProductStep(p[0], t, r);
    var x, g := Xor(Product(t), Zeros(|t|) + r), POLYNOMIAL + Zeros(|t|);
    assert p == [p[0]] + p[1..];
    XorTwice(p[1..], g);
    XorTwice(x, g);
  }

  /** There is only one remainder. */
  lemma {:induction false} DivisionIsUnique(p: bits, q: bits, r: word)
    requires |p| == |q| + 32 && p == Xor(Product(q), Zeros(|q|) + r)
    ensures r == Remainder(p)
    decreases |p|
  {
    if q == [] {
    } else {
      assert p[0] == q[0] && [q[0]] + q[1..] == q;
      DivisionStep(p, q[1..], r);
      DivisionIsUnique(Reduced(p), q[1..], r);
    }
  }

  // ---- The checksum bit by bit ----

  /** One shift of the register; a bit shifted out brings the polynomial in. */
  function Shift(r: word): word {
    var s := r[1..] + [false];
    if r[0] then Xor(s, POLYNOMIAL) else s
  }

  function Shifts(r: word, n: nat): word
    decreases n
  {
    if n == 0 then r else Shifts(Shift(r), n - 1)
  }

  /** The register after the bits of a message have entered at its top, first to last. */
  function Checksum(r: word, message: bits): word
    decreases |message|
  {
    if message == [] then r else Checksum(Shift(r[0 := r[0] != message[0]]), message[1..])
  }

  function Bits(data: seq<byte>): (r: bits)
    ensures |r| == 8 * |data|
  {
    if data == [] then [] else Bits(data[..|data| - 1]) + data[|data| - 1]
  }

  /** Byte after byte, each from its most significant bit down. */
  lemma {:induction false} BitsAt(data: seq<byte>, i: nat, j: nat)
    requires i < |data| && j < 8
    ensures Bits(data)[8 * i + j] == data[i][j]
  {
    var n := |data| - 1;
    if i < n { BitsAt(data[..n], i, j); }
  }

  lemma {:induction false} BitsConcat(a: seq<byte>, b: seq<byte>)
    ensures Bits(a + b) == Bits(a) + Bits(b)
  {
    if b == [] {
      assert a + b == a;
    } else {
      var n := |b| - 1;
      BitsConcat(a, b[..n]);
      assert (a + b)[..|a + b| - 1] == a + b[..n];
    }
  }

  /** The checksum is the remainder of the message followed by 32 zeros, after the seed has been
      added to its leading coefficients. */
  lemma {:induction false} ChecksumIsRemainder(seed: word, message: bits)
    ensures Checksum(seed, message) == Remainder(Xor(seed + Zeros(|message|), message + Zeros(32)))
    decreases |message|
  {
    var p := Xor(seed + Zeros(|message|), message + Zeros(32));
    if message == [] {
      assert p == seed;
    } else {
      var r := Shift(seed[0 := seed[0] != message[0]]);
      assert Reduced(p) == Xor(r + Zeros(|message| - 1), message[1..] + Zeros(32));
      ChecksumIsRemainder(r, message[1..]);
    }
  }

  /** Taking a message in two parts. */
  lemma {:induction false} ChecksumConcat(r: word, a: bits, b: bits)
    ensures Checksum(r, a + b) == Checksum(Checksum(r, a), b)
    decreases |a|
  {
    hide Shift;
    if a == [] {
      assert a + b == b;
    } else {
      ChecksumConcat(Shift(r[0 := r[0] != a[0]]), a[1..], b);
      assert (a + b)[1..] == a[1..] + b;
    }
  }

  // ---- It is linear and loses nothing ----

  lemma ShiftLinear(r: word, s: word)
    ensures Shift(Xor(r, s)) == Xor(Shift(r), Shift(s))
  {
  }

  lemma {:induction false} ShiftsLinear(r: word, s: word, n: nat)
    ensures Shifts(Xor(r, s), n) == Xor(Shifts(r, n), Shifts(s, n))
    decreases n
  {
    hide Shift;
    if n > 0 {
      ShiftLinear(r, s);
      ShiftsLinear(Shift(r), Shift(s), n - 1);
    }
  }

  lemma ShiftInjective(r: word, s: word)
    requires Shift(r) == Shift(s)
    ensures r == s
  {
    assert Shift(r)[31] == r[0] && Shift(s)[31] == s[0];
    forall k | 1 <= k < 32 ensures r[k] == s[k] {
      assert Shift(r)[k - 1] == (r[k] != (r[0] && POLYNOMIAL[k - 1]));
      assert Shift(s)[k - 1] == (s[k] != (s[0] && POLYNOMIAL[k - 1]));
    }
  }

  lemma {:induction false} ShiftsInjective(r: word, s: word, n: nat)
    requires Shifts(r, n) == Shifts(s, n)
    ensures r == s
    decreases n
  {
    hide Shift;
    if n > 0 {
      ShiftsInjective(Shift(r), Shift(s), n - 1);
      ShiftInjective(r, s);
    }
  }

  /** The checksum of a difference is the difference of the checksums. */
  lemma {:induction false} ChecksumLinear(r: word, s: word, a: bits, b: bits)
    requires |a| == |b|
    ensures Checksum(Xor(r, s), Xor(a, b)) == Xor(Checksum(r, a), Checksum(s, b))
    decreases |a|
  {
    hide Shift;
    if a != [] {
      var x, y := r[0 := r[0] != a[0]], s[0 := s[0] != b[0]];
      assert Xor(r, s)[0 := Xor(r, s)[0] != Xor(a, b)[0]] == Xor(x, y);
      ShiftLinear(x, y);
      assert Xor(a, b)[1..] == Xor(a[1..], b[1..]);
      ChecksumLinear(Shift(x), Shift(y), a[1..], b[1..]);
    }
  }

  /** No two states of the register lead to the same checksum over the same bits. */
  lemma {:induction false} EndDeterminesStart(r: word, s: word, message: bits)
    requires Checksum(r, message) == Checksum(s, message)
    ensures r == s
    decreases |message|
  {
    hide Shift;
    if message != [] {
      var x, y := r[0 := r[0] != message[0]], s[0 := s[0] != message[0]];
      EndDeterminesStart(Shift(x), Shift(y), message[1..]);
      ShiftInjective(x, y);
      forall i | 0 <= i < 32 ensures r[i] == s[i] {
        assert x[i] == y[i];
      }
    }
  }

  /** Entering up to 32 bits one at a time is adding them all and then shifting. */
  lemma {:induction false} EnterAtOnce(r: word, d: bits)
    requires |d| <= 32
    ensures Checksum(r, d) == Shifts(Xor(r, d + Zeros(32 - |d|)), |d|)
    decreases |d|
  {
    if d == [] {
      assert Xor(r, d + Zeros(32)) == r;
    } else {
      hide Shift;
      EnterFirst(r, d);
      EnterAtOnce(Shift(r[0 := r[0] != d[0]]), d[1..]);
    }
  }

  lemma EnterFirst(r: word, d: bits)
    requires 0 < |d| <= 32
    ensures Shift(Xor(r, d + Zeros(32 - |d|))) == Xor(Shift(r[0 := r[0] != d[0]]), d[1..] + Zeros(33 - |d|))
  {
  }

  /** Any change confined to 32 consecutive bits of a message of any length is noticed. */
  lemma BurstIsNoticed(seed: word, head: bits, a: bits, b: bits, tail: bits)
    requires |a| == |b| <= 32 && a != b
    ensures Checksum(seed, head + a + tail) != Checksum(seed, head + b + tail)
  {
    hide Shift, Shifts, Checksum;
    var r := Checksum(seed, head);
    ChecksumConcat(seed, head + a, tail);
    ChecksumConcat(seed, head + b, tail);
    ChecksumConcat(seed, head, a);
    ChecksumConcat(seed, head, b);
    if Checksum(seed, head + a + tail) == Checksum(seed, head + b + tail) {
      EndDeterminesStart(Checksum(r, a), Checksum(r, b), tail);
      EnterAtOnce(r, a);
      EnterAtOnce(r, b);
      var x, y := Xor(r, a + Zeros(32 - |a|)), Xor(r, b + Zeros(32 - |b|));
      ShiftsInjective(x, y, |a|);
      forall i | 0 <= i < |a| ensures a[i] == b[i] {
        assert x[i] == y[i];
      }
    }
  }

  /** A message followed by its checksum leaves nothing in the register. */
  lemma Residue(seed: word, message: bits)
    ensures Checksum(seed, message + Checksum(seed, message)) == Zeros(32)
  {
    hide Shift, Shifts, Checksum;
    var r := Checksum(seed, message);
    ChecksumConcat(seed, message, r);
    EnterAtOnce(r, r);
    assert Xor(r, r + Zeros(0)) == Zeros(32);
    ShiftsOut(Zeros(32), 32);
  }

  /** Shifting while only zeros are shifted out. */
  lemma {:induction false} ShiftsOut(r: word, n: nat)
    requires n <= 32 && forall i :: 0 <= i < n ==> !r[i]
    ensures Shifts(r, n) == r[n..] + Zeros(n)
    decreases n
  {
    if n > 0 {
      ShiftsOut(Shift(r), n - 1);
    }
  }

  // ---- The routine ----

  /** lsl: what is left and the last bit shifted out. */
  function Lsl(r: word, n: nat): word
    requires 0 < n <= 32
  {
    r[n..] + Zeros(n)
  }

  /** rev: the bytes of a word in the opposite order. */
  function Rev(r: word): word {
    r[24..] + r[16..24] + r[8..16] + r[..8]
  }

  function Ldrb(b: byte): word { Zeros(24) + b }

  /** Taking a whole byte the way the routine does. */
  lemma ByteStep(r2: word, b: byte)
    ensures Checksum(r2, b) == Xor(Lsl(r2, 8), Shifts(Lsl(Xor(Ldrb(b), Rev(r2)), 24), 8))
  {
    hide Shift, Shifts, Checksum;
    EnterAtOnce(r2, b);
    var r4, low := Lsl(Xor(Ldrb(b), Rev(r2)), 24), Zeros(8) + r2[8..];
    assert Xor(r2, b + Zeros(24)) == Xor(low, r4);
    ShiftsLinear(low, r4, 8);
    ShiftsOut(low, 8);
    assert low[8..] + Zeros(8) == Lsl(r2, 8);
  }

  /** crc32_small: the checksum of the bytes, each most significant bit first. */
  method Crc32Small(data: seq<byte>, seed: word) returns (r2: word)
    ensures r2 == Checksum(seed, Bits(data))
  {
    hide Shift, Shifts, Checksum, Rev, Lsl;
    r2 := seed;
    EmptyChecksum(seed);
    var r0 := 0;
    while r0 < |data|
      invariant r0 <= |data| && r2 == Checksum(seed, Bits(data[..r0]))
    {
      var r4 := Ldrb(data[r0]);
      var r3 := Rev(r2);
      r4 := Xor(r4, r3);
      r4 := Lsl(r4, 24);
      r4 := BitLoop(r4);
      ByteStep(r2, data[r0]);
      ChecksumConcat(seed, Bits(data[..r0]), data[r0]);
      assert data[..r0 + 1][..r0] == data[..r0];
      r2 := Lsl(r2, 8);
      r2 := Xor(r2, r4);
      r0 := r0 + 1;
    }
    assert data[..|data|] == data;
  }

  /** A message of bytes can be taken in parts, as the routine's caller may. */
  method InParts(a: seq<byte>, b: seq<byte>, seed: word) returns (whole: word, parts: word)
    ensures whole == parts == Checksum(seed, Bits(a + b))
  {
    hide Checksum, Bits;
    whole := Crc32Small(a + b, seed);
    var first := Crc32Small(a, seed);
    parts := Crc32Small(b, first);
    BitsConcat(a, b);
    ChecksumConcat(seed, Bits(a), Bits(b));
  }

  /** The routine notices every change of a message of bytes that 32 consecutive bits hold. */
  method NoticeBurst(a: seq<byte>, b: seq<byte>, seed: word, ghost p: nat) returns (x: word, y: word)
    requires |a| == |b| && a != b
    requires forall i, j :: 0 <= i < |a| && 0 <= j < 8 && a[i][j] != b[i][j] ==> p <= 8 * i + j < p + 32
    ensures x == Checksum(seed, Bits(a)) && y == Checksum(seed, Bits(b)) && x != y
  {
    x := Crc32Small(a, seed);
    y := Crc32Small(b, seed);
    ByteBurst(a, b, seed, p);
  }

  lemma ByteBurst(a: seq<byte>, b: seq<byte>, seed: word, p: nat)
    requires |a| == |b| && a != b
    requires forall i, j :: 0 <= i < |a| && 0 <= j < 8 && a[i][j] != b[i][j] ==> p <= 8 * i + j < p + 32
    ensures Checksum(seed, Bits(a)) != Checksum(seed, Bits(b))
  {
    hide Checksum, Bits;
    var x, y, n := Bits(a), Bits(b), 8 * |a|;
    var lo := if p < n then p else n;
    var hi := if p + 32 < n then p + 32 else n;
    forall k | 0 <= k < n && !(lo <= k < hi) ensures x[k] == y[k] {
      BitsAt(a, k / 8, k % 8);
      BitsAt(b, k / 8, k % 8);
    }
    assert x == x[..lo] + x[lo..hi] + x[hi..] && y == x[..lo] + y[lo..hi] + x[hi..] by {
      assert x[..lo] == y[..lo] && x[hi..] == y[hi..];
      assert x == x[..lo] + x[lo..hi] + x[hi..] && y == y[..lo] + y[lo..hi] + y[hi..];
    }
    if x[lo..hi] == y[lo..hi] { BitsTell(a, b); }
    BurstIsNoticed(seed, x[..lo], x[lo..hi], y[lo..hi], x[hi..]);
  }

  /** Different bytes have different bits. */
  lemma BitsTell(a: seq<byte>, b: seq<byte>)
    requires |a| == |b| && Bits(a) == Bits(b)
    ensures a == b
  {
    hide Bits;
    forall i | 0 <= i < |a| ensures a[i] == b[i] {
      forall j | 0 <= j < 8 ensures a[i][j] == b[i][j] {
        BitsAt(a, i, j);
        BitsAt(b, i, j);
      }
    }
  }

  /** A message followed by the four bytes of its checksum, most significant first, leaves zero. */
  method CheckResidue(data: seq<byte>, seed: word) returns (r: word)
    ensures r == Zeros(32)
  {
    hide Checksum, Bits;
    var c := Crc32Small(data, seed);
    var tail: seq<byte> := [c[..8], c[8..16], c[16..24], c[24..]];
    r := Crc32Small(data + tail, seed);
    BitsConcat(data, tail);
    FourBytes(c, tail);
    Residue(seed, Bits(data));
  }

  lemma FourBytes(c: word, tail: seq<byte>)
    requires tail == [c[..8], c[8..16], c[16..24], c[24..]]
    ensures Bits(tail) == c
  {
    hide Bits;
    forall k | 0 <= k < 32 ensures Bits(tail)[k] == c[k] { BitsAt(tail, k / 8, k % 8); }
  }

  lemma EmptyChecksum(r: word)
    ensures Checksum(r, Bits([])) == r
  {
  }

  /** bit_loop: eight shifts. */
  method BitLoop(start: word) returns (r4: word)
    ensures r4 == Shifts(start, 8)
  {
    r4 := start;
    var r3 := 8;
    while true
      invariant 0 < r3 <= 8 && Shifts(r4, r3) == Shifts(start, 8)
      decreases r3
    {
      var carry := r4[0];
      assert Zeros(1) == [false];
      r4 := Lsl(r4, 1);
      if carry { r4 := Xor(r4, POLYNOMIAL); }
      r3 := r3 - 1;
      if r3 == 0 { break; }
    }
  }
}
