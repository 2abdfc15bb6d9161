/** The Mode S CRC-24 (crates/mb-modes/src/lib.rs) and its algebra. */
module Crc24 {
  import opened Common

  // ---------------------------------------------------------------- the register

  /**
   * One turn of the inner loop, for the generator polynomial 0xFFF409. Bits above bit 23 are never cleared; they never
   * feed back either.
   */
  function Shift(crc: bv32): bv32 {
    if (crc << 1) & 0x100_0000 != 0 then (crc << 1) ^ 0xFFF409 else crc << 1
  }

  function Shifts(crc: bv32, n: nat): bv32 {
    if n == 0 then crc else Shift(Shifts(crc, n - 1))
  }

  /** A byte moved to the top of the 24-bit register. */
  function Aligned(b: byte): bv32 {
    (b as bv32) << 16
  }

  function ByteStep(crc: bv32, b: byte): bv32 {
    Shifts(crc ^ Aligned(b), 8)
  }

  function Register(data: seq<byte>): bv32 {
    if data == [] then 0
    else ByteStep(Register(data[..|data| - 1]), data[|data| - 1])
  }

  function Crc(data: seq<byte>): bv32 {
    Register(data) & 0xFF_FFFF
  }

  lemma NextShift(loaded: bv32, k: nat, crc: bv32)
    requires crc == Shifts(loaded, k)
    ensures Shifts(loaded, k + 1) == Shift(crc)
  {
  }

  lemma ShiftCases(crc: bv32)
    ensures (crc << 1) & 0x100_0000 != 0 ==> Shift(crc) == (crc << 1) ^ 0xFFF409
    ensures (crc << 1) & 0x100_0000 == 0 ==> Shift(crc) == crc << 1
  {
  }

  lemma RegisterAppend(data: seq<byte>, i: nat)
    requires i < |data|
    ensures Register(data[..i + 1]) == ByteStep(Register(data[..i]), data[i])
  {
    assert data[..i + 1][..i] == data[..i];
  }

  method Crc24(data: seq<byte>) returns (crc: bv32)
    ensures crc == Crc(data)
  {
    crc := 0;
    for i := 0 to |data|
      invariant crc == Register(data[..i])
    {
      RegisterAppend(data, i);
      crc := crc ^ ((data[i] as bv32) << 16);
      crc := ShiftByte(crc);
    }
    assert data[..|data|] == data;
    crc := crc & 0xFF_FFFF;
  }

  /** The inner loop: eight single-bit turns. */
  method ShiftByte(loaded: bv32) returns (crc: bv32)
    ensures crc == Shifts(loaded, 8)
  {
    crc := loaded;
    for k := 0 to 8
      invariant crc == Shifts(loaded, k)
    {
      NextShift(loaded, k, crc);
      ShiftCases(crc);
      crc := crc << 1;
      if crc & 0x100_0000 != 0 {
        crc := crc ^ 0xFFF409;
      }
    }
  }

  // ---------------------------------------------------------------- polynomials over GF(2)

  /** Coefficients, highest degree first. */
  type Poly = seq<bool>

  function Zeros(n: nat): (p: Poly)
    ensures |p| == n
  {
    seq(n, _ => false)
  }

  function Plus(p: Poly, q: Poly): (r: Poly)
    requires |p| == |q|
    ensures |r| == |p|
  {
    seq(|p|, i requires 0 <= i < |p| => p[i] != q[i])
  }

  /** The register bit that holds the coefficient of x^(23-k). */
  function Mask(k: nat): (m: bv32)
    requires k < 24
    ensures m != 0 && m & (m - 1) == 0 && m <= 0x80_0000
  {
    if k == 0 then 0x80_0000 else if k == 1 then 0x40_0000 else if k == 2 then 0x20_0000 else
    if k == 3 then 0x10_0000 else
    if k == 4 then 0x8_0000 else if k == 5 then 0x4_0000 else if k == 6 then 0x2_0000 else if k == 7 then 0x1_0000 else
    if k == 8 then 0x8000 else if k == 9 then 0x4000 else if k == 10 then 0x2000 else if k == 11 then 0x1000 else
    if k == 12 then 0x800 else if k == 13 then 0x400 else if k == 14 then 0x200 else if k == 15 then 0x100 else
    if k == 16 then 0x80 else if k == 17 then 0x40 else if k == 18 then 0x20 else if k == 19 then 0x10 else
    if k == 20 then 0x8 else if k == 21 then 0x4 else if k == 22 then 0x2 else 0x1
  }

  function Bit(r: bv32, k: nat): bool
    requires k < 24
  {
    r & Mask(k) != 0
  }

  /** The low 24 bits of a register as a polynomial of degree below 24. */
  function Bits24(r: bv32): (p: Poly)
    ensures |p| == 24
  {
    seq(24, k requires 0 <= k < 24 => Bit(r, k))
  }

  /** The bits of a byte, in the order they are sent. */
  function ByteBits(b: byte): (p: Poly)
    ensures |p| == 8
  {
    seq(8, k requires 0 <= k < 8 => Bit(Aligned(b), k))
  }

  function Bits(data: seq<byte>): (p: Poly)
    ensures |p| == 8 * |data|
  {
    if data == [] then [] else Bits(data[..|data| - 1]) + ByteBits(data[|data| - 1])
  }

  /** x^24 + ... : the generator with its leading coefficient. */
  const GENERATOR: Poly := [true] + Bits24(0xFFF409)

  /** q times the generator, by shift and add. */
  function TimesGenerator(q: Poly): (p: Poly)
    ensures |p| == |q| + 24
  {
    if q == [] then Zeros(24)
    else
      var shifted := TimesGenerator(q[..|q| - 1]) + [false];
      if q[|q| - 1] then Plus(shifted, Zeros(|q| - 1) + GENERATOR) else shifted
  }

  /** bits * x^24 == quotient * generator + remainder. */
  ghost predicate Divides(bits: Poly, quotient: Poly, remainder: Poly) {
    && |quotient| == |bits| && |remainder| == 24
    && bits + Zeros(24) == Plus(TimesGenerator(quotient), Zeros(|bits|) + remainder)
  }

  // ---------------------------------------------------------------- bit-serial division

  function PolyStep(r: Poly, b: bool): (r': Poly)
    requires |r| == 24
    ensures |r'| == 24
  {
    var c := b != r[0];
    seq(24, k requires 0 <= k < 24 => (k < 23 && r[k + 1]) != (c && GENERATOR[k + 1]))
  }

  function Feed(r: Poly, bits: Poly): (r': Poly)
    requires |r| == 24
    ensures |r'| == 24
  {
    if bits == [] then r else PolyStep(Feed(r, bits[..|bits| - 1]), bits[|bits| - 1])
  }

  function Quotient(bits: Poly): (q: Poly)
    ensures |q| == |bits|
  {
    if bits == [] then []
    else Quotient(bits[..|bits| - 1]) + [bits[|bits| - 1] != Feed(Zeros(24), bits[..|bits| - 1])[0]]
  }
}

module CrcTheorems {
  import opened Common
  import opened Crc24

  // ---------------------------------------------------------------- register and division agree

  lemma MaskedSum(x: bv32, y: bv32, m: bv32)
    requires m != 0 && m & (m - 1) == 0
    ensures ((x ^ y) & m != 0) == ((x & m != 0) != (y & m != 0))
  {
  }

  lemma MaskedDouble(x: bv32, m: bv32)
    requires m <= 0x80_0000
    ensures ((x << 1) & (m << 1) != 0) == (x & m != 0)
  {
  }

  lemma MaskFacts(k: nat)
    requires k < 24
    ensures if k == 23 then Mask(k) == 1 else Mask(k) == Mask(k + 1) << 1
  {
  }

  lemma SumBit(x: bv32, y: bv32, k: nat)
    requires k < 24
    ensures Bit(x ^ y, k) == (Bit(x, k) != Bit(y, k))
  {
    hide Mask;
    MaskedSum(x, y, Mask(k));
  }

  lemma DoubledBit(c: bv32, k: nat)
    requires k < 23
    ensures Bit(c << 1, k) == Bit(c, k + 1)
  {
    hide Mask;
    MaskFacts(k);
    MaskedDouble(c, Mask(k + 1));
  }

  lemma DoubledLastBit(c: bv32)
    ensures !Bit(c << 1, 23)
  {
  }

  lemma Feedback(c: bv32)
    ensures Bit(c, 0) ==> Shift(c) == (c << 1) ^ 0xFFF409
    ensures !Bit(c, 0) ==> Shift(c) == c << 1
  {
  }

  lemma ShiftedBit(c: bv32, k: nat)
    requires k < 24
    ensures Bit(Shift(c), k) == ((k < 23 && Bit(c, k + 1)) != (Bit(c, 0) && Bit(0xFFF409, k)))
  {
    Feedback(c);
    hide Mask;
    hide Bit;
    hide Shift;
    if k < 23 {
      DoubledBit(c, k);
    } else {
      DoubledLastBit(c);
    }
    SumBit(c << 1, 0xFFF409, k);
  }

  lemma GeneratorBits()
    ensures |GENERATOR| == 25 && GENERATOR[0] && GENERATOR[24]
    ensures forall k :: 0 <= k < 24 ==> GENERATOR[k + 1] == Bit(0xFFF409, k)
  {
    assert Bits24(0xFFF409)[23] == Bit(0xFFF409, 23);
  }

  lemma ShiftIsPolyStep(c: bv32)
    ensures Bits24(Shift(c)) == PolyStep(Bits24(c), false)
  {
    GeneratorBits();
    forall k | 0 <= k < 24
      ensures Bits24(Shift(c))[k] == PolyStep(Bits24(c), false)[k]
    {
      ShiftedBit(c, k);
      hide Bit;
      hide Shift;
      assert Bits24(Shift(c))[k] == Bit(Shift(c), k);
    }
  }

  lemma {:induction false} FeedAppend(r: Poly, a: Poly, b: Poly)
    requires |r| == 24
    ensures Feed(r, a + b) == Feed(Feed(r, a), b)
    decreases |b|
  {
    if b == [] {
      assert a + b == a;
    } else {
      assert (a + b)[..|a + b| - 1] == a + b[..|b| - 1];
      FeedAppend(r, a, b[..|b| - 1]);
    }
  }

  lemma {:induction false} ShiftsFeedZeros(c: bv32, n: nat)
    ensures Bits24(Shifts(c, n)) == Feed(Bits24(c), Zeros(n))
  {
    if n > 0 {
      ShiftsFeedZeros(c, n - 1);
      ShiftIsPolyStep(Shifts(c, n - 1));
      assert Zeros(n)[..n - 1] == Zeros(n - 1);
    }
  }

  lemma FeedHead(r: Poly, b: bool, w: Poly)
    requires |r| == 24
    ensures Feed(r, [b] + w) == Feed(PolyStep(r, b), w)
  {
    FeedAppend(r, [b], w);
    assert [b][..0] == [] && Feed(r, []) == r;
  }

  lemma LoadedStep(r: Poly, b: bool, w: Poly)
    requires |r| == 24 && |w| <= 23
    ensures PolyStep(Plus(r, [b] + w + Zeros(23 - |w|)), false) == Plus(PolyStep(r, b), w + Zeros(24 - |w|))
  {
  }

  /** Feeding at most 24 bits one by one is adding them to the top of the register and feeding zeros. */
  lemma {:induction false} FeedUpFront(r: Poly, w: Poly)
    requires |r| == 24 && |w| <= 24
    ensures Feed(r, w) == Feed(Plus(r, w + Zeros(24 - |w|)), Zeros(|w|))
    decreases |w|
  {
    if w == [] {
      assert Plus(r, w + Zeros(24)) == r;
    } else {
      var b, w' := w[0], w[1..];
      assert w == [b] + w' && Zeros(|w|) == [false] + Zeros(|w'|);
      FeedHead(r, b, w');
      FeedHead(Plus(r, w + Zeros(24 - |w|)), false, Zeros(|w'|));
      LoadedStep(r, b, w');
      FeedUpFront(PolyStep(r, b), w');
    }
  }

  // ---------------------------------------------------------------- the register holds the remainder

  lemma Bits24Xor(x: bv32, y: bv32)
    ensures Bits24(x ^ y) == Plus(Bits24(x), Bits24(y))
  {
    forall k | 0 <= k < 24
      ensures Bits24(x ^ y)[k] == Plus(Bits24(x), Bits24(y))[k]
    {
      SumBit(x, y, k);
      hide Bit;
      assert Bits24(x ^ y)[k] == Bit(x ^ y, k);
    }
  }

  lemma AlignedAlone(b: byte)
    ensures Bits24(Aligned(b)) == ByteBits(b) + Zeros(16)
  {
    forall k | 0 <= k < 24
      ensures Bits24(Aligned(b))[k] == (ByteBits(b) + Zeros(16))[k]
    {
      if k >= 8 {
        AlignedLowBits(b, k);
      }
      hide Bit;
      hide Aligned;
    }
  }

  lemma AlignedBits(c: bv32, b: byte)
    ensures Bits24(c ^ Aligned(b)) == Plus(Bits24(c), ByteBits(b) + Zeros(16))
  {
    hide *;
    Bits24Xor(c, Aligned(b));
    AlignedAlone(b);
  }

  lemma AlignedLowBits(b: byte, k: nat)
    requires 8 <= k < 24
    ensures !Bit(Aligned(b), k)
  {
    LowMask(k);
    LowAnd(b, Mask(k));
  }

  lemma LowMask(k: nat)
    requires 8 <= k < 24
    ensures Mask(k) <= 0x8000
  {
  }

  lemma LowAnd(b: byte, m: bv32)
    requires m <= 0x8000
    ensures ((b as bv32) << 16) & m == 0
  {
  }

  lemma ByteStepIsFeed(c: bv32, b: byte)
    ensures Bits24(ByteStep(c, b)) == Feed(Bits24(c), ByteBits(b))
  {
    AlignedBits(c, b);
    ShiftsFeedZeros(c ^ Aligned(b), 8);
    FeedUpFront(Bits24(c), ByteBits(b));
  }

  lemma ZeroBits()
    ensures Bits24(0) == Zeros(24)
  {
    forall k | 0 <= k < 24
      ensures Bits24(0)[k] == Zeros(24)[k]
    {
      assert Bits24(0)[k] == Bit(0, k);
    }
  }

  lemma {:induction false} RegisterIsFeed(data: seq<byte>)
    ensures Bits24(Register(data)) == Feed(Zeros(24), Bits(data))
  {
    if data == [] {
      ZeroBits();
    } else {
      RegisterIsFeed(data[..|data| - 1]);
      ByteStepIsFeed(Register(data[..|data| - 1]), data[|data| - 1]);
      FeedAppend(Zeros(24), Bits(data[..|data| - 1]), ByteBits(data[|data| - 1]));
    }
  }

  lemma MaskedAnd(r: bv32, m: bv32)
    requires m <= 0x80_0000
    ensures (r & 0xFF_FFFF) & m == r & m
  {
  }

  lemma LowBit(r: bv32, k: nat)
    requires k < 24
    ensures Bit(r & 0xFF_FFFF, k) == Bit(r, k)
  {
    hide Mask;
    MaskedAnd(r, Mask(k));
  }

  lemma CrcIsFeed(data: seq<byte>)
    ensures Bits24(Crc(data)) == Feed(Zeros(24), Bits(data))
  {
    RegisterIsFeed(data);
    var r := Register(data);
    forall k | 0 <= k < 24
      ensures Bits24(r & 0xFF_FFFF)[k] == Bits24(r)[k]
    {
      LowBit(r, k);
      hide Bit;
      assert Bits24(r)[k] == Bit(r, k);
    }
    assert Bits24(r & 0xFF_FFFF) == Bits24(r);
  }

  // ---------------------------------------------------------------- division with remainder

  lemma TimesGeneratorAt(q: Poly, c: bool, i: nat)
    requires i < |q| + 25
    ensures TimesGenerator(q + [c])[i]
         == ((i < |q| + 24 && TimesGenerator(q)[i]) != (c && i >= |q| && GENERATOR[i - |q|]))
  {
    GeneratorBits();
    assert (q + [c])[..|q|] == q;
  }

  /** Over GF(2) the division equation says that the product is the message followed by the remainder. */
  lemma DividesIsProduct(bits: Poly, q: Poly, rem: Poly)
    requires |q| == |bits| && |rem| == 24
    ensures Divides(bits, q, rem) <==> TimesGenerator(q) == bits + rem
  {
    var product := TimesGenerator(q);
    var lhs, rhs := bits + Zeros(24), Plus(product, Zeros(|bits|) + rem);
    forall i | 0 <= i < |bits| + 24
      ensures lhs[i] == rhs[i] <==> product[i] == (bits + rem)[i]
    {
    }
    if product == bits + rem {
      assert lhs == rhs;
    }
  }

  /** The circuit's quotient and register solve the division. */
  lemma {:induction false} CircuitDivides(bits: Poly)
    ensures TimesGenerator(Quotient(bits)) == bits + Feed(Zeros(24), bits)
    decreases |bits|
  {
    if bits != [] {
      var n := |bits| - 1;
      var bits0, q0, rem0 := bits[..n], Quotient(bits[..n]), Feed(Zeros(24), bits[..n]);
      var c := bits[n] != rem0[0];
      CircuitDivides(bits0);
      GeneratorBits();
      forall i | 0 <= i < n + 25
        ensures TimesGenerator(q0 + [c])[i] == (bits + PolyStep(rem0, bits[n]))[i]
      {
        TimesGeneratorAt(q0, c, i);
      }
    }
  }

  /** The coefficients of bits * x + b followed by rem, against those of the two factors' product. */
  lemma LastStepCoefficients(q: Poly, c: bool, bits: Poly, b: bool, rem: Poly, i: nat)
    requires |q| == |bits| && |rem| == 24 && TimesGenerator(q + [c]) == bits + [b] + rem && i < |q| + 25
    ensures var n, lhs := |q|, if i < |q| then bits[i] else if i == |q| then b else rem[i - |q| - 1];
            lhs == ((i < n + 24 && TimesGenerator(q)[i]) != (c && i >= n && GENERATOR[i - n]))
  {
    GeneratorBits();
    TimesGeneratorAt(q, c, i);
    hide TimesGenerator;
    assert (bits + [b] + rem)[i] == if i < |q| then bits[i] else if i == |q| then b else rem[i - |q| - 1];
  }

  lemma LastStepRemainder(q: Poly, c: bool, bits: Poly, b: bool, rem: Poly)
    requires |q| == |bits| && |rem| == 24 && TimesGenerator(q + [c]) == bits + [b] + rem
    ensures var rem0 := TimesGenerator(q)[|q|..]; c == (b != rem0[0]) && rem == PolyStep(rem0, b)
  {
    var n, rem0 := |q|, TimesGenerator(q)[|q|..];
    GeneratorBits();
    LastStepCoefficients(q, c, bits, b, rem, n);
    forall k | 0 <= k < 24
      ensures rem[k] == PolyStep(rem0, b)[k]
    {
      LastStepCoefficients(q, c, bits, b, rem, n + 1 + k);
      hide TimesGenerator;
    }
  }

  /** The last division step, read backwards. */
  lemma LastStep(q: Poly, c: bool, bits: Poly, b: bool, rem: Poly)
    requires |q| == |bits| && |rem| == 24 && TimesGenerator(q + [c]) == bits + [b] + rem
    ensures var rem0 := TimesGenerator(q)[|q|..];
            TimesGenerator(q) == bits + rem0 && c == (b != rem0[0]) && rem == PolyStep(rem0, b)
  {
    LastStepRemainder(q, c, bits, b, rem);
    forall i | 0 <= i < |q|
      ensures bits[i] == TimesGenerator(q)[i]
    {
      LastStepCoefficients(q, c, bits, b, rem, i);
    }
    hide TimesGenerator, PolyStep;
    assert TimesGenerator(q)[..|q|] == bits;
  }

  /** Any other solution coincides with it. */
  lemma {:induction false} DivisionIsUnique(bits: Poly, q: Poly, rem: Poly)
    requires |q| == |bits| && |rem| == 24 && TimesGenerator(q) == bits + rem
    ensures q == Quotient(bits) && rem == Feed(Zeros(24), bits)
    decreases |bits|
  {
    if bits == [] {
      assert bits + rem == rem;
    } else {
      var n := |bits| - 1;
      assert q == q[..n] + [q[n]] && bits == bits[..n] + [bits[n]];
      LastStep(q[..n], q[n], bits[..n], bits[n], rem);
      DivisionIsUnique(bits[..n], q[..n], TimesGenerator(q[..n])[n..]);
    }
  }

  /** The CRC of a message is the remainder of message * x^24 by the generator, and nothing else is. */
  lemma CrcIsPolynomialRemainder(data: seq<byte>, rem: Poly)
    ensures (exists q :: Divides(Bits(data), q, rem)) <==> rem == Bits24(Crc(data))
  {
    CrcIsFeed(data);
    var bits := Bits(data);
    CircuitDivides(bits);
    DividesIsProduct(bits, Quotient(bits), Feed(Zeros(24), bits));
    forall q | Divides(bits, q, rem)
      ensures rem == Bits24(Crc(data))
    {
      DividesIsProduct(bits, q, rem);
      DivisionIsUnique(bits, q, rem);
    }
  }

  // ---------------------------------------------------------------- linearity

  function XorBytes(x: seq<byte>, y: seq<byte>): (z: seq<byte>)
    requires |x| == |y|
    ensures |z| == |x|
  {
    seq(|x|, i requires 0 <= i < |x| => x[i] ^ y[i])
  }

  lemma PolyStepLinear(r: Poly, r': Poly, b: bool, b': bool)
    requires |r| == |r'| == 24
    ensures PolyStep(Plus(r, r'), b != b') == Plus(PolyStep(r, b), PolyStep(r', b'))
  {
  }

  lemma {:induction false} FeedLinear(r: Poly, r': Poly, w: Poly, w': Poly)
    requires |r| == |r'| == 24 && |w| == |w'|
    ensures Feed(Plus(r, r'), Plus(w, w')) == Plus(Feed(r, w), Feed(r', w'))
    decreases |w|
  {
    if w != [] {
      var n := |w| - 1;
      FeedLinear(r, r', w[..n], w'[..n]);
      PolyStepLinear(Feed(r, w[..n]), Feed(r', w'[..n]), w[n], w'[n]);
      assert Plus(w, w')[..n] == Plus(w[..n], w'[..n]);
    }
  }

  lemma AlignedXor(b: byte, b': byte)
    ensures Aligned(b ^ b') == Aligned(b) ^ Aligned(b')
  {
  }

  lemma ByteBitsXor(b: byte, b': byte)
    ensures ByteBits(b ^ b') == Plus(ByteBits(b), ByteBits(b'))
  {
    AlignedXor(b, b');
    forall k | 0 <= k < 8
      ensures ByteBits(b ^ b')[k] == Plus(ByteBits(b), ByteBits(b'))[k]
    {
      SumBit(Aligned(b), Aligned(b'), k);
    }
  }

  lemma {:induction false} BitsXor(x: seq<byte>, y: seq<byte>)
    requires |x| == |y|
    ensures Bits(XorBytes(x, y)) == Plus(Bits(x), Bits(y))
    decreases |x|
  {
    if x != [] {
      var n := |x| - 1;
      BitsXor(x[..n], y[..n]);
      assert XorBytes(x, y)[..n] == XorBytes(x[..n], y[..n]);
      ByteBitsXor(x[n], y[n]);
      PlusConcat(Bits(x[..n]), ByteBits(x[n]), Bits(y[..n]), ByteBits(y[n]));
    }
  }

  lemma PlusConcat(p: Poly, q: Poly, p': Poly, q': Poly)
    requires |p| == |p'| && |q| == |q'|
    ensures Plus(p + q, p' + q') == Plus(p, p') + Plus(q, q')
  {
  }

  lemma NoBits(x: bv32)
    requires x <= 0xFF_FFFF && Bits24(x) == Zeros(24)
    ensures x == 0
  {
    forall k | 0 <= k < 24
      ensures !Bit(x, k)
    {
      assert Bits24(x)[k] == Zeros(24)[k];
    }
    assert !Bit(x, 0) && !Bit(x, 1) && !Bit(x, 2) && !Bit(x, 3) && !Bit(x, 4) && !Bit(x, 5);
    assert !Bit(x, 6) && !Bit(x, 7) && !Bit(x, 8) && !Bit(x, 9) && !Bit(x, 10) && !Bit(x, 11);
    assert !Bit(x, 12) && !Bit(x, 13) && !Bit(x, 14) && !Bit(x, 15) && !Bit(x, 16) && !Bit(x, 17);
    assert !Bit(x, 18) && !Bit(x, 19) && !Bit(x, 20) && !Bit(x, 21) && !Bit(x, 22) && !Bit(x, 23);
  }

  lemma XorCancels(x: bv32, y: bv32)
    ensures x ^ y == 0 ==> x == y
    ensures x <= 0xFF_FFFF && y <= 0xFF_FFFF ==> x ^ y <= 0xFF_FFFF
  {
  }

  /** A 24-bit register is determined by its coefficients. */
  lemma Bits24Injective(x: bv32, y: bv32)
    requires x <= 0xFF_FFFF && y <= 0xFF_FFFF && Bits24(x) == Bits24(y)
    ensures x == y
  {
    Bits24Xor(x, y);
    PlusSelf(Bits24(x));
    XorCancels(x, y);
    NoBits(x ^ y);
  }

  lemma PlusSelf(p: Poly)
    ensures Plus(p, p) == Zeros(|p|)
  {
  }

  lemma CrcRange(data: seq<byte>)
    ensures Crc(data) <= 0xFF_FFFF
  {
  }

  lemma CrcBitsLinear(x: seq<byte>, y: seq<byte>)
    requires |x| == |y|
    ensures Bits24(Crc(XorBytes(x, y))) == Plus(Bits24(Crc(x)), Bits24(Crc(y)))
  {
    CrcIsFeed(x);
    CrcIsFeed(y);
    CrcIsFeed(XorBytes(x, y));
    BitsXor(x, y);
    PlusSelf(Zeros(24));
    FeedLinear(Zeros(24), Zeros(24), Bits(x), Bits(y));
  }

  lemma XorIsOnlySum(z: bv32, x: bv32, y: bv32)
    requires z <= 0xFF_FFFF && x <= 0xFF_FFFF && y <= 0xFF_FFFF
    requires Bits24(z) == Plus(Bits24(x), Bits24(y))
    ensures z == x ^ y
  {
    hide *;
    Bits24Xor(x, y);
    XorCancels(x, y);
    Bits24Injective(z, x ^ y);
  }

  lemma CrcIsLinear(x: seq<byte>, y: seq<byte>)
    requires |x| == |y|
    ensures Crc(XorBytes(x, y)) == Crc(x) ^ Crc(y)
  {
    CrcBitsLinear(x, y);
    CrcRange(x);
    CrcRange(y);
    CrcRange(XorBytes(x, y));
    hide *;
    XorIsOnlySum(Crc(XorBytes(x, y)), Crc(x), Crc(y));
  }

  // ---------------------------------------------------------------- parity and error detection

  lemma PolyStepInjective(r: Poly)
    requires |r| == 24 && PolyStep(r, false) == Zeros(24)
    ensures r == Zeros(24)
  {
    GeneratorBits();
    assert PolyStep(r, false)[23] == Zeros(24)[23];
    forall k | 0 <= k < 24
      ensures !r[k]
    {
      if k > 0 {
        assert PolyStep(r, false)[k - 1] == Zeros(24)[k - 1];
      }
    }
  }

  lemma {:induction false} FeedZerosInjective(r: Poly, n: nat)
    requires |r| == 24 && Feed(r, Zeros(n)) == Zeros(24)
    ensures r == Zeros(24)
  {
    if n > 0 {
      assert Zeros(n)[..n - 1] == Zeros(n - 1);
      PolyStepInjective(Feed(r, Zeros(n - 1)));
      FeedZerosInjective(r, n - 1);
    }
  }

  lemma {:induction false} FeedZerosFromZero(n: nat)
    ensures Feed(Zeros(24), Zeros(n)) == Zeros(24)
  {
    if n > 0 {
      assert Zeros(n)[..n - 1] == Zeros(n - 1);
      FeedZerosFromZero(n - 1);
    }
  }

  lemma PlusIsZero(p: Poly, q: Poly)
    requires |p| == |q|
    ensures Plus(p, q) == Zeros(|p|) <==> p == q
  {
    if Plus(p, q) == Zeros(|p|) {
      forall k | 0 <= k < |p|
        ensures p[k] == q[k]
      {
        assert Plus(p, q)[k] == Zeros(|p|)[k];
      }
    }
  }

  /** At most 24 further bits bring the register to zero exactly when they are its own top bits. */
  lemma FeedToZero(r: Poly, w: Poly)
    requires |r| == 24 && |w| <= 24
    ensures Feed(r, w) == Zeros(24) <==> r == w + Zeros(24 - |w|)
  {
    var padded := w + Zeros(24 - |w|);
    FeedUpFront(r, w);
    PlusIsZero(r, padded);
    FeedZerosFromZero(|w|);
    if Feed(r, w) == Zeros(24) {
      FeedZerosInjective(Plus(r, padded), |w|);
    }
  }

  lemma {:induction false} BitsConcat(x: seq<byte>, y: seq<byte>)
    ensures Bits(x + y) == Bits(x) + Bits(y)
    decreases |y|
  {
    if y == [] {
      assert x + y == x;
    } else {
      assert (x + y)[..|x + y| - 1] == x + y[..|y| - 1];
      BitsConcat(x, y[..|y| - 1]);
    }
  }

  lemma MaskOctave(i: nat)
    requires i < 16
    ensures Mask(i) == Mask(i + 8) << 8 && Mask(i + 8) <= 0x8000
  {
  }

  lemma MaskedOctave(x: bv32, m: bv32)
    requires m <= 0x8000
    ensures ((x << 8) & (m << 8) != 0) == (x & m != 0)
  {
  }

  lemma OctaveBit(x: bv32, i: nat)
    requires i < 16
    ensures Bit(x << 8, i) == Bit(x, i + 8)
  {
    hide Mask;
    MaskOctave(i);
    MaskedOctave(x, Mask(i + 8));
  }

  lemma TopByteBit(x: bv32, i: nat)
    requires i < 8
    ensures Bit(x & 0xFF_0000, i) == Bit(x, i)
  {
  }

  lemma ParityAligned(p: bv32)
    ensures Aligned(Bytes24(p)[0]) == p & 0xFF_0000
    ensures Aligned(Bytes24(p)[1]) == (p << 8) & 0xFF_0000
    ensures Aligned(Bytes24(p)[2]) == ((p << 8) << 8) & 0xFF_0000
  {
  }

  lemma TopByteBits(b: byte, x: bv32, i: nat)
    requires i < 8 && Aligned(b) == x & 0xFF_0000
    ensures ByteBits(b)[i] == Bit(x, i)
  {
    TopByteBit(x, i);
    hide Bit;
  }

  lemma MiddleByteBits(b: byte, x: bv32, i: nat)
    requires i < 8 && Aligned(b) == (x << 8) & 0xFF_0000
    ensures ByteBits(b)[i] == Bit(x, i + 8)
  {
    TopByteBits(b, x << 8, i);
    OctaveBit(x, i);
    hide *;
  }

  lemma BottomByteBits(b: byte, x: bv32, i: nat)
    requires i < 8 && Aligned(b) == ((x << 8) << 8) & 0xFF_0000
    ensures ByteBits(b)[i] == Bit(x, i + 16)
  {
    MiddleByteBits(b, x << 8, i);
    OctaveBit(x, i + 8);
    hide *;
  }

  lemma Bits3(f: seq<byte>)
    requires |f| == 3
    ensures Bits(f) == ByteBits(f[0]) + ByteBits(f[1]) + ByteBits(f[2])
  {
    assert f[..2][..1][..0] == [] && f[..2][..1] == f[..1];
    assert Bits(f[..1]) == ByteBits(f[0]);
    assert Bits(f[..2]) == ByteBits(f[0]) + ByteBits(f[1]);
  }

  lemma ParityBits(p: bv32)
    ensures Bits(Bytes24(p)) == Bits24(p)
  {
    var f := Bytes24(p);
    Bits3(f);
    ParityAligned(p);
    hide Bytes24, ByteBits, Bits, Aligned;
    forall k | 0 <= k < 24
      ensures (ByteBits(f[0]) + ByteBits(f[1]) + ByteBits(f[2]))[k] == Bits24(p)[k]
    {
      WordBit(f, p, k);
    }
  }

  lemma WordBit(f: seq<byte>, p: bv32, k: nat)
    requires |f| == 3 && k < 24
    requires Aligned(f[0]) == p & 0xFF_0000 && Aligned(f[1]) == (p << 8) & 0xFF_0000
    requires Aligned(f[2]) == ((p << 8) << 8) & 0xFF_0000
    ensures (ByteBits(f[0]) + ByteBits(f[1]) + ByteBits(f[2]))[k] == Bits24(p)[k]
  {
    hide Bit, ByteBits, Aligned;
    if k < 8 {
      TopByteBits(f[0], p, k);
    } else if k < 16 {
      MiddleByteBits(f[1], p, k - 8);
    } else {
      BottomByteBits(f[2], p, k - 16);
    }
  }

  /** Three trailing bytes make a frame check to zero exactly when they are the parity of what precedes them. */
  lemma ParityCheck(data: seq<byte>, tail: seq<byte>)
    requires |tail| == 3
    ensures Crc(data + tail) == 0 <==> Bits(tail) == Bits24(Crc(data))
  {
    CrcIsFeed(data);
    CrcIsFeed(data + tail);
    BitsConcat(data, tail);
    FeedAppend(Zeros(24), Bits(data), Bits(tail));
    assert Bits(tail) + Zeros(0) == Bits(tail);
    FeedToZero(Bits24(Crc(data)), Bits(tail));
    ZeroBits();
    CrcRange(data + tail);
    if Bits24(Crc(data + tail)) == Bits24(0) {
      Bits24Injective(Crc(data + tail), 0);
    }
  }

  lemma AppendedParityChecks(data: seq<byte>)
    ensures Crc(data + Bytes24(Crc(data))) == 0
  {
    CrcRange(data);
    ParityBits(Crc(data));
    ParityCheck(data, Bytes24(Crc(data)));
  }

  /** x and y differ, and only within 24 consecutive bits starting at bit k. */
  ghost predicate DifferInBurst(x: seq<byte>, y: seq<byte>, k: nat) {
    && |x| == |y| && x != y
    && forall i :: 0 <= i < 8 * |x| && Bits(x)[i] != Bits(y)[i] ==> k <= i < k + 24
  }

  lemma {:induction false} BitsInjective(x: seq<byte>, y: seq<byte>)
    requires |x| == |y| && Bits(x) == Bits(y)
    ensures x == y
    decreases |x|
  {
    if x != [] {
      var n := |x| - 1;
      assert Bits(x)[..8 * n] == Bits(x[..n]) && Bits(y)[..8 * n] == Bits(y[..n]);
      assert Bits(x)[8 * n..] == ByteBits(x[n]) && Bits(y)[8 * n..] == ByteBits(y[n]);
      BitsInjective(x[..n], y[..n]);
      ByteBitsInjective(x[n], y[n]);
      assert x == x[..n] + [x[n]] && y == y[..n] + [y[n]];
    }
  }

  lemma ByteBitsInjective(b: byte, b': byte)
    requires ByteBits(b) == ByteBits(b')
    ensures b == b'
  {
    var x, y := Aligned(b), Aligned(b');
    forall k | 0 <= k < 8
      ensures Bit(x, k) == Bit(y, k)
    {
      assert ByteBits(b)[k] == ByteBits(b')[k];
    }
    assert Bit(x, 0) == Bit(y, 0) && Bit(x, 1) == Bit(y, 1) && Bit(x, 2) == Bit(y, 2) && Bit(x, 3) == Bit(y, 3);
    assert Bit(x, 4) == Bit(y, 4) && Bit(x, 5) == Bit(y, 5) && Bit(x, 6) == Bit(y, 6) && Bit(x, 7) == Bit(y, 7);
  }

  /** A nonzero pattern of at most 24 bits, wherever it stands, leaves a nonzero register. */
  lemma ShortPatternLeavesRemainder(w: Poly)
    requires |w| <= 24 && Feed(Zeros(24), w) == Zeros(24)
    ensures w == Zeros(|w|)
  {
    FeedToZero(Zeros(24), w);
    hide Feed;
    var padded := w + Zeros(24 - |w|);
    assert w == padded[..|w|] && Zeros(24)[..|w|] == Zeros(|w|);
  }

  /** A nonzero pattern of at most 24 bits, wherever it stands, leaves a nonzero register. */
  lemma BurstLeavesRemainder(lo: nat, w: Poly, hi: nat)
    requires |w| <= 24 && Feed(Zeros(24), Zeros(lo) + w + Zeros(hi)) == Zeros(24)
    ensures w == Zeros(|w|)
  {
    FeedAppend(Zeros(24), Zeros(lo) + w, Zeros(hi));
    FeedAppend(Zeros(24), Zeros(lo), w);
    FeedZerosFromZero(lo);
    hide Feed, Zeros;
    FeedZerosInjective(Feed(Zeros(24), Zeros(lo) + w), hi);
    ShortPatternLeavesRemainder(w);
  }

  lemma BurstPattern(x: seq<byte>, y: seq<byte>, k: nat) returns (lo: nat, w: Poly, hi: nat)
    requires DifferInBurst(x, y, k)
    ensures |w| <= 24 && w != Zeros(|w|)
    ensures Bits(XorBytes(x, y)) == Zeros(lo) + w + Zeros(hi)
  {
    var e := Plus(Bits(x), Bits(y));
    BitsXor(x, y);
    lo := if k <= |e| then k else |e|;
    var end := if k + 24 <= |e| then k + 24 else |e|;
    w, hi := e[lo..end], |e| - end;
    assert e[..lo] == Zeros(lo) && e[end..] == Zeros(hi);
    assert e == Zeros(lo) + w + Zeros(hi);
    if w == Zeros(|w|) {
      assert e == Zeros(|e|);
      PlusIsZero(Bits(x), Bits(y));
      BitsInjective(x, y);
    }
  }

  /** Every nonempty error confined to 24 consecutive bits changes the CRC. */
  lemma BurstChangesCrc(x: seq<byte>, y: seq<byte>, k: nat)
    requires DifferInBurst(x, y, k)
    ensures Crc(x) != Crc(y)
  {
    var lo, w, hi := BurstPattern(x, y, k);
    if Crc(x) == Crc(y) {
      CrcBitsLinear(x, y);
      CrcIsFeed(XorBytes(x, y));
      PlusSelf(Bits24(Crc(x)));
      BurstLeavesRemainder(lo, w, hi);
    }
  }
}
