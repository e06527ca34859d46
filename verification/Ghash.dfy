/** Shoup's 4-bit-table multiplication and GHASH (crypto/aead.c:111-176), against the bit-serial
    product of section 6.3 and the GHASH of section 6.4 of NIST SP 800-38D. A 128-bit block is the
    number its 16 bytes spell big-endian, so the block's first bit is the number's highest. */
module Ghash {
  import opened Arith
  import opened Machine
  import opened RsaBytes
  import Bits

  const TWO64: nat := 0x1_0000_0000_0000_0000
  /** 11100001 || 0^120, as 0xe100 and 112 zero bits. */
  const R: nat := 0xe100 * (0x1_0000_0000_0000 * TWO64)

  /** One step of V: shifted right by one, R added when a one falls off. */
  function MulX(v: nat): nat {
    Step(v, R)
  }

  function Step(v: nat, r: nat): nat {
    if v % 2 == 0 then v / 2 else Bits.Xor(v / 2, r)
  }

  /** Bit i of a byte string, the first bit of the first byte being bit 0. */
  predicate Bit(b: seq<u8>, i: nat)
    requires i < 8 * |b|
  {
    b[i / 8] / Pow2(7 - i % 8) % 2 == 1
  }

  function Times(bit: bool, v: nat): nat {
    if bit then v else 0
  }

  /** Section 6.3's product from bit i on: V is added where the bit is set, then V steps. */
  ghost function Serial(x: seq<u8>, i: nat, v: nat): nat
    requires |x| == 16 && i <= 128
    decreases 128 - i
  {
    if i == 128 then 0 else Bits.Xor(Times(Bit(x, i), v), Serial(x, i + 1, MulX(v)))
  }

  ghost function Product(x: seq<u8>, h: nat): nat
    requires |x| == 16
  {
    Serial(x, 0, h)
  }

  // ---- stepping is linear -----------------------------------------------------------------

  lemma OneStep(s: nat, t: nat, r: nat)
    ensures Bits.Xor(Bits.Xor(s, r), Bits.Xor(t, r)) == Bits.Xor(s, t)
    ensures Bits.Xor(Bits.Xor(s, r), t) == Bits.Xor(Bits.Xor(s, t), r)
    ensures Bits.Xor(s, Bits.Xor(t, r)) == Bits.Xor(Bits.Xor(s, t), r)
  {
    var st := Bits.Xor(s, t);
    Bits.XorMiddle(s, r, t, r);
    Bits.XorSelf(r);
    Bits.XorZero(st);
    Bits.XorAssoc(s, t, r);
    Bits.XorAssoc(s, r, t);
    Bits.XorCommutes(r, t);
  }

  lemma StepLinear(a: nat, b: nat, r: nat)
    ensures Step(Bits.Xor(a, b), r) == Bits.Xor(Step(a, r), Step(b, r))
  {
    hide Bits.Xor;
    Bits.XorStep(a, b);
    OneStep(a / 2, b / 2, r);
  }

  lemma MulXLinear(a: nat, b: nat)
    ensures MulX(Bits.Xor(a, b)) == Bits.Xor(MulX(a), MulX(b))
  {
    StepLinear(a, b, R);
  }

  lemma {:induction false} SerialStep(x: seq<u8>, i: nat, v: nat)
    requires |x| == 16 && i <= 128
    ensures Serial(x, i, MulX(v)) == MulX(Serial(x, i, v))
    decreases 128 - i
  {
    if i < 128 {
      SerialStep(x, i + 1, MulX(v));
      MulXLinear(Times(Bit(x, i), v), Serial(x, i + 1, MulX(v)));
    }
  }

  // ---- four bits at a time ----------------------------------------------------------------

  function MulX4(v: nat): nat {
    MulX(MulX(MulX(MulX(v))))
  }

  lemma MulX4Linear(a: nat, b: nat)
    ensures MulX4(Bits.Xor(a, b)) == Bits.Xor(MulX4(a), MulX4(b))
  {
    MulXLinear(a, b);
    MulXLinear(MulX(a), MulX(b));
    MulXLinear(MulX(MulX(a)), MulX(MulX(b)));
    MulXLinear(MulX(MulX(MulX(a))), MulX(MulX(MulX(b))));
  }

  lemma SerialStep4(x: seq<u8>, i: nat, v: nat)
    requires |x| == 16 && i <= 128
    ensures Serial(x, i, MulX4(v)) == MulX4(Serial(x, i, v))
  {
    SerialStep(x, i, MulX(MulX(MulX(v))));
    SerialStep(x, i, MulX(MulX(v)));
    SerialStep(x, i, MulX(v));
    SerialStep(x, i, v);
  }

  /** A 4-bit index times H: its bits, most significant first, each with its own step of H. */
  function TableEntry(h: nat, n: nat): nat {
    var h1 := MulX(h);
    var h2 := MulX(h1);
    var h3 := MulX(h2);
    Bits.Xor(Bits.Xor(Times(n / 8 % 2 == 1, h), Times(n / 4 % 2 == 1, h1)),
             Bits.Xor(Times(n / 2 % 2 == 1, h2), Times(n % 2 == 1, h3)))
  }

  /** The k-th 4-bit digit of a byte string. */
  function Nibble(x: seq<u8>, k: nat): (n: nat)
    requires k < 2 * |x|
    ensures n < 16
  {
    if k % 2 == 0 then x[k / 2] / 16 else x[k / 2] % 16
  }

  lemma BitAt(x: seq<u8>, j: nat, r: nat, p: nat)
    requires j < |x| && r < 8 && p == Pow2(7 - r)
    ensures Bit(x, 8 * j + r) <==> x[j] / p % 2 == 1
  {
    var i := 8 * j + r;
    assert i / 8 == j && i % 8 == r;
  }

  lemma ByteAt(x: seq<u8>, j: nat)
    requires j < |x|
    ensures (Bit(x, 8 * j) <==> x[j] / 128 % 2 == 1) && (Bit(x, 8 * j + 1) <==> x[j] / 64 % 2 == 1)
    ensures (Bit(x, 8 * j + 2) <==> x[j] / 32 % 2 == 1) && (Bit(x, 8 * j + 3) <==> x[j] / 16 % 2 == 1)
    ensures (Bit(x, 8 * j + 4) <==> x[j] / 8 % 2 == 1) && (Bit(x, 8 * j + 5) <==> x[j] / 4 % 2 == 1)
    ensures (Bit(x, 8 * j + 6) <==> x[j] / 2 % 2 == 1) && (Bit(x, 8 * j + 7) <==> x[j] % 2 == 1)
  {
    hide Bit;
    Pow2Known(2, 2, 4, 4);
    Pow2Known(4, 2, 16, 4);
    BitAt(x, j, 0, 128);
    BitAt(x, j, 1, 64);
    BitAt(x, j, 2, 32);
    BitAt(x, j, 3, 16);
    BitAt(x, j, 4, 8);
    BitAt(x, j, 5, 4);
    BitAt(x, j, 6, 2);
    BitAt(x, j, 7, 1);
  }

  lemma NibbleBits(x: seq<u8>, k: nat)
    requires |x| == 16 && k < 32
    ensures var n := Nibble(x, k);
            && (n / 8 % 2 == 1 <==> Bit(x, 4 * k)) && (n / 4 % 2 == 1 <==> Bit(x, 4 * k + 1))
            && (n / 2 % 2 == 1 <==> Bit(x, 4 * k + 2)) && (n % 2 == 1 <==> Bit(x, 4 * k + 3))
  {
    hide Bit;
    var j := k / 2;
    ByteBits(x[j]);
    ByteAt(x, j);
    if k % 2 == 0 {
      assert 4 * k == 8 * j;
    } else {
      assert 4 * k == 8 * j + 4;
    }
  }

  lemma ByteBits(c: u8)
    ensures c / 16 / 8 == c / 128 && c / 16 / 4 == c / 64 && c / 16 / 2 == c / 32
    ensures c % 16 / 8 % 2 == c / 8 % 2 && c % 16 / 4 % 2 == c / 4 % 2 && c % 16 / 2 % 2 == c / 2 % 2
    ensures c % 16 % 2 == c % 2
  {
    var q, r := c / 16, c % 16;
    DivModUnique(c, q / 8, q % 8 * 16 + r, 128);
    DivModUnique(c, q / 4, q % 4 * 16 + r, 64);
    DivModUnique(c, q / 2, q % 2 * 16 + r, 32);
    DivModUnique(c, 2 * q + r / 8, r % 8, 8);
    DivModUnique(c, 4 * q + r / 4, r % 4, 4);
    DivModUnique(c, 8 * q + r / 2, r % 2, 2);
    CongMultiple(c / 8, r / 8, q, 2);
    CongMultiple(c / 4, r / 4, 2 * q, 2);
    CongMultiple(c / 2, r / 2, 4 * q, 2);
    CongMultiple(c, r, 8 * q, 2);
  }

  lemma Regroup(a: nat, b: nat, c: nat, d: nat, e: nat)
    ensures Bits.Xor(a, Bits.Xor(b, Bits.Xor(c, Bits.Xor(d, e))))
            == Bits.Xor(Bits.Xor(Bits.Xor(a, b), Bits.Xor(c, d)), e)
  {
    Bits.XorAssoc(c, d, e);
    Bits.XorAssoc(a, b, Bits.Xor(Bits.Xor(c, d), e));
    Bits.XorAssoc(Bits.Xor(a, b), Bits.Xor(c, d), e);
  }

  /** Four serial steps are one table entry and one shift by four. */
  lemma SerialNibble(x: seq<u8>, k: nat, h: nat)
    requires |x| == 16 && k < 32
    ensures Serial(x, 4 * k, h) == Bits.Xor(TableEntry(h, Nibble(x, k)), MulX4(Serial(x, 4 * k + 4, h)))
  {
    hide Bits.Xor;
    hide Bit;
    hide MulX;
    var i := 4 * k;
    var h1 := MulX(h);
    var h2 := MulX(h1);
    var h3 := MulX(h2);
    NibbleBits(x, k);
    SerialStep4(x, i + 4, h);
    var a, b, c, d := Times(Bit(x, i), h), Times(Bit(x, i + 1), h1), Times(Bit(x, i + 2), h2), Times(Bit(x, i + 3), h3);
    assert Serial(x, i + 3, h3) == Bits.Xor(d, Serial(x, i + 4, MulX(h3)));
    assert Serial(x, i + 2, h2) == Bits.Xor(c, Serial(x, i + 3, h3));
    assert Serial(x, i + 1, h1) == Bits.Xor(b, Serial(x, i + 2, h2));
    assert Serial(x, i, h) == Bits.Xor(a, Serial(x, i + 1, h1));
    Regroup(a, b, c, d, Serial(x, i + 4, MulX4(h)));
  }

  // ---- the shift by four and LAST4 ----------------------------------------------------------

  const LAST4: seq<nat> := [
    0x0000, 0x1c20, 0x3840, 0x2460, 0x7080, 0x6ca0, 0x48c0, 0x54e0,
    0xe100, 0xfd20, 0xd940, 0xc560, 0x9180, 0x8da0, 0xa9c0, 0xb5e0
  ]

  const UNIT: nat := 0x1_0000_0000_0000 * TWO64

  lemma Unit() returns (k: nat)
    ensures Pow2(k) == UNIT
  {
    var a: nat, b: nat, c: nat := 16, 32, 64;
    TwoTo16(a);
    TwoTo32(b);
    TwoTo64(c);
    Pow2Known(a, b, 0x1_0000, 0x1_0000_0000);
    Pow2Known(a + b, c, 0x1_0000_0000_0000, TWO64);
    k := a + b + c;
  }

  lemma FallenOne()
    ensures MulX4(8) == 0xe100 * UNIT && MulX4(4) == 0x7080 * UNIT
    ensures MulX4(2) == 0x3840 * UNIT && MulX4(1) == 0x1c20 * UNIT
  {
    hide Bits.Xor;
    Bits.XorCommutes(0, R);
    Bits.XorZero(R);
    assert MulX(1) == R;
  }

  lemma FallenXor(a: nat, b: nat, x: nat, y: nat)
    requires MulX4(a) == x * UNIT && MulX4(b) == y * UNIT
    ensures MulX4(Bits.Xor(a, b)) == Bits.Xor(x, y) * UNIT
  {
    hide Bits.Xor;
    MulX4Linear(a, b);
    var k := Unit();
    Bits.XorSplit(x, 0, y, 0, k, UNIT);
    Bits.XorZero(0);
  }

  lemma Sums()
    ensures Bits.Xor(2, 1) == 3 && Bits.Xor(4, 1) == 5 && Bits.Xor(4, 2) == 6 && Bits.Xor(6, 1) == 7
    ensures Bits.Xor(8, 1) == 9 && Bits.Xor(8, 2) == 10 && Bits.Xor(10, 1) == 11 && Bits.Xor(8, 4) == 12
    ensures Bits.Xor(12, 1) == 13 && Bits.Xor(12, 2) == 14 && Bits.Xor(14, 1) == 15
  {
    hide Bits.Xor;
    Digit(0, 0, 1, 0, 0, 0, 0, 1);
    Digit(0, 1, 0, 0, 0, 0, 0, 1);
    Digit(0, 1, 0, 0, 0, 0, 1, 0);
    Digit(0, 1, 1, 0, 0, 0, 0, 1);
    Digit(1, 0, 0, 0, 0, 0, 0, 1);
    Digit(1, 0, 0, 0, 0, 0, 1, 0);
    Digit(1, 0, 1, 0, 0, 0, 0, 1);
    Digit(1, 0, 0, 0, 0, 1, 0, 0);
    Digit(1, 1, 0, 0, 0, 0, 0, 1);
    Digit(1, 1, 0, 0, 0, 0, 1, 0);
    Digit(1, 1, 1, 0, 0, 0, 0, 1);
  }

  /** Four hexadecimal digits are combined one by one. */
  lemma Xor16(a: nat, b: nat, c: nat, d: nat, e: nat, f: nat, g: nat, h: nat)
    requires b < 16 && c < 16 && d < 16 && f < 16 && g < 16 && h < 16
    ensures Bits.Xor(4096 * a + 256 * b + 16 * c + d, 4096 * e + 256 * f + 16 * g + h)
            == 4096 * Bits.Xor(a, e) + 256 * Bits.Xor(b, f) + 16 * Bits.Xor(c, g) + Bits.Xor(d, h)
  {
    hide Bits.Xor;
    Bits.XorSplit(a, b, e, f, 4, 16);
    Bits.XorSplit(a * 16 + b, c, e * 16 + f, g, 4, 16);
    Bits.XorSplit((a * 16 + b) * 16 + c, d, (e * 16 + f) * 16 + g, h, 4, 16);
  }

  function XorBit(p: nat, q: nat): nat {
    if p == q then 0 else 1
  }

  lemma OneBit(p: nat, q: nat)
    requires p < 2 && q < 2
    ensures Bits.Xor(p, q) == XorBit(p, q)
  {
    Bits.XorStep(p, q);
    Bits.XorZero(0);
  }

  lemma Append(a: nat, b: nat, c: nat, d: nat, u: nat, v: nat)
    requires b < 2 && d < 2 && u == 2 * a + b && v == 2 * c + d
    ensures Bits.Xor(u, v) == 2 * Bits.Xor(a, c) + Bits.Xor(b, d)
  {
    hide Bits.Xor;
    Bits.XorSplit(a, b, c, d, 1, 2);
  }

  lemma Digit(a: nat, b: nat, c: nat, d: nat, e: nat, f: nat, g: nat, h: nat)
    requires a < 2 && b < 2 && c < 2 && d < 2 && e < 2 && f < 2 && g < 2 && h < 2
    ensures Bits.Xor(8 * a + 4 * b + 2 * c + d, 8 * e + 4 * f + 2 * g + h)
            == 8 * XorBit(a, e) + 4 * XorBit(b, f) + 2 * XorBit(c, g) + XorBit(d, h)
  {
    hide Bits.Xor;
    hide XorBit;
    var u, v := 2 * a + b, 2 * e + f;
    TwoBits(a, b, e, f, u, v);
    ThreeBits(a, b, c, e, f, g, u, v, 2 * u + c, 2 * v + g);
    OneBit(d, h);
    Append(2 * u + c, d, 2 * v + g, h, 8 * a + 4 * b + 2 * c + d, 8 * e + 4 * f + 2 * g + h);
  }

  lemma TwoBits(a: nat, b: nat, e: nat, f: nat, u: nat, v: nat)
    requires a < 2 && b < 2 && e < 2 && f < 2 && u == 2 * a + b && v == 2 * e + f
    ensures Bits.Xor(u, v) == 2 * XorBit(a, e) + XorBit(b, f)
  {
    hide Bits.Xor;
    hide XorBit;
    OneBit(a, e);
    OneBit(b, f);
    Append(a, b, e, f, u, v);
  }

  lemma ThreeBits(a: nat, b: nat, c: nat, e: nat, f: nat, g: nat, u: nat, v: nat, x: nat, y: nat)
    requires a < 2 && b < 2 && c < 2 && e < 2 && f < 2 && g < 2
    requires u == 2 * a + b && v == 2 * e + f && x == 2 * u + c && y == 2 * v + g
    ensures Bits.Xor(x, y) == 4 * XorBit(a, e) + 2 * XorBit(b, f) + XorBit(c, g)
  {
    hide Bits.Xor;
    hide XorBit;
    TwoBits(a, b, e, f, u, v);
    OneBit(c, g);
    Append(u, c, v, g, x, y);
  }

  lemma Last4Sums1()
    ensures Bits.Xor(0x3840, 0x1c20) == 0x2460 && Bits.Xor(0x7080, 0x1c20) == 0x6ca0
    ensures Bits.Xor(0x7080, 0x3840) == 0x48c0 && Bits.Xor(0x48c0, 0x1c20) == 0x54e0
    ensures Bits.Xor(0xe100, 0x1c20) == 0xfd20 && Bits.Xor(0xe100, 0x3840) == 0xd940
  {
    hide Bits.Xor;
    Digit(0, 0, 1, 1, 0, 0, 0, 1);
    Digit(1, 0, 0, 0, 1, 1, 0, 0);
    Digit(0, 1, 0, 0, 0, 0, 1, 0);
    Digit(0, 0, 0, 0, 0, 0, 0, 0);
    Digit(0, 1, 1, 1, 0, 0, 0, 1);
    Digit(0, 0, 0, 0, 1, 1, 0, 0);
    Digit(1, 0, 0, 0, 0, 0, 1, 0);
    Digit(0, 1, 1, 1, 0, 0, 1, 1);
    Digit(0, 0, 0, 0, 1, 0, 0, 0);
    Digit(1, 0, 0, 0, 0, 1, 0, 0);
    Digit(0, 1, 0, 0, 0, 0, 0, 1);
    Digit(1, 1, 0, 0, 0, 0, 1, 0);
    Digit(1, 1, 1, 0, 0, 0, 0, 1);
    Digit(0, 0, 0, 1, 1, 1, 0, 0);
    Digit(0, 0, 0, 0, 0, 0, 1, 0);
    Digit(1, 1, 1, 0, 0, 0, 1, 1);
    Digit(0, 0, 0, 1, 1, 0, 0, 0);
    Digit(0, 0, 0, 0, 0, 1, 0, 0);
    Xor16(3, 8, 4, 0, 1, 12, 2, 0);
    Xor16(7, 0, 8, 0, 1, 12, 2, 0);
    Xor16(7, 0, 8, 0, 3, 8, 4, 0);
    Xor16(4, 8, 12, 0, 1, 12, 2, 0);
    Xor16(14, 1, 0, 0, 1, 12, 2, 0);
    Xor16(14, 1, 0, 0, 3, 8, 4, 0);
  }

  lemma Last4Sums2()
    ensures Bits.Xor(0xd940, 0x1c20) == 0xc560 && Bits.Xor(0xe100, 0x7080) == 0x9180
    ensures Bits.Xor(0x9180, 0x1c20) == 0x8da0 && Bits.Xor(0x9180, 0x3840) == 0xa9c0
    ensures Bits.Xor(0xa9c0, 0x1c20) == 0xb5e0
  {
    hide Bits.Xor;
    Digit(1, 1, 0, 1, 0, 0, 0, 1);
    Digit(1, 0, 0, 1, 1, 1, 0, 0);
    Digit(0, 1, 0, 0, 0, 0, 1, 0);
    Digit(0, 0, 0, 0, 0, 0, 0, 0);
    Digit(1, 1, 1, 0, 0, 1, 1, 1);
    Digit(0, 0, 0, 1, 0, 0, 0, 0);
    Digit(0, 0, 0, 0, 1, 0, 0, 0);
    Digit(1, 0, 0, 1, 0, 0, 0, 1);
    Digit(0, 0, 0, 1, 1, 1, 0, 0);
    Digit(1, 0, 0, 0, 0, 0, 1, 0);
    Digit(1, 0, 0, 1, 0, 0, 1, 1);
    Digit(0, 0, 0, 1, 1, 0, 0, 0);
    Digit(1, 0, 0, 0, 0, 1, 0, 0);
    Digit(1, 0, 1, 0, 0, 0, 0, 1);
    Digit(1, 1, 0, 0, 0, 0, 1, 0);
    Xor16(13, 9, 4, 0, 1, 12, 2, 0);
    Xor16(14, 1, 0, 0, 7, 0, 8, 0);
    Xor16(9, 1, 8, 0, 1, 12, 2, 0);
    Xor16(9, 1, 8, 0, 3, 8, 4, 0);
    Xor16(10, 9, 12, 0, 1, 12, 2, 0);
  }

  /** Four bits fall off: the table holds their sum, already reduced. */
  lemma FallenFour(rem: nat)
    requires rem < 16
    ensures MulX4(rem) == LAST4[rem] * UNIT
  {
    hide Bits.Xor;
    FallenOne();
    Sums();
    Last4Sums1();
    Last4Sums2();
    FallenXor(2, 1, 0x3840, 0x1c20);
    FallenXor(4, 1, 0x7080, 0x1c20);
    FallenXor(4, 2, 0x7080, 0x3840);
    FallenXor(6, 1, 0x48c0, 0x1c20);
    FallenXor(8, 1, 0xe100, 0x1c20);
    FallenXor(8, 2, 0xe100, 0x3840);
    FallenXor(10, 1, 0xd940, 0x1c20);
    FallenXor(8, 4, 0xe100, 0x7080);
    FallenXor(12, 1, 0x9180, 0x1c20);
    FallenXor(12, 2, 0x9180, 0x3840);
    FallenXor(14, 1, 0xa9c0, 0x1c20);
  }

  // ---- two words for one block ----------------------------------------------------------------

  function Join(hi: u64, lo: u64): nat {
    hi * TWO64 + lo
  }

  lemma JoinXor(a: u64, b: u64, c: u64, d: u64)
    ensures Join(Bits.XorU64(a, c), Bits.XorU64(b, d)) == Bits.Xor(Join(a, b), Join(c, d))
  {
    hide Bits.Xor;
    var w: nat := 64;
    TwoTo64(w);
    Bits.XorSplit(a, b, c, d, w, TWO64);
  }

  lemma FunnelSplit(x: u64, y: u64, p: nat, q: nat)
    requires p > 0 && q > 0 && p * q == TWO64
    ensures x * q % TWO64 == x % p * q && y / p < q
    ensures x % p * q + y / p < TWO64
    ensures Join(x, y) / p == x / p * TWO64 + (x % p * q + y / p)
    ensures Join(x, y) % p == y % p
  {
    var xh, xl, yh, yl := x / p, x % p, y / p, y % p;
    assert x * q == xh * TWO64 + xl * q by {
      assert x == xh * p + xl;
      Assoc(xh, p, q);
      assert (xh * p + xl) * q == (xh * p) * q + xl * q;
    }
    assert xl * q + q <= TWO64 by { MulGe(p, xl + 1, q); assert (xl + 1) * q == xl * q + q; }
    MulGe(xl, 0, q);
    DivModUnique(x * q, xh, xl * q, TWO64);
    assert yh < q by { if yh >= q { MulGe(yh, q, p); } }
    var up := xh * TWO64 + (xl * q + yh);
    assert Join(x, y) == up * p + yl by {
      Assoc(x, q, p);
      assert x * TWO64 == (x * q) * p;
      assert up * p == (x * q + yh) * p == (x * q) * p + yh * p;
      assert y == yh * p + yl;
    }
    DivModUnique(Join(x, y), up, yl, p);
  }

  /** (x << (64 - k)) | (y >> k), with p = 2^k and q = 2^(64-k). */
  method Funnel(x: u64, y: u64, k: nat, p: nat, q: nat) returns (l: u64)
    requires k <= 64 && p == Pow2(k) && q == Pow2(64 - k)
    ensures Join(x, y) / p == x / p * TWO64 + l
    ensures Join(x, y) % p == y % p
  {
    hide Bits.Or;
    hide Pow2;
    var w: nat := 64;
    TwoTo64(w);
    Pow2Known(k, 64 - k, p, q);
    FunnelSplit(x, y, p, q);
    Bits.OrDisjoint(y / p, x % p, 64 - k, q);
    l := Bits.Or(y / p, x * q % TWO64);
  }

  const TWO63: nat := 0x8000_0000_0000_0000
  const TWO60: nat := 0x1000_0000_0000_0000

  lemma Shifts(one: nat, four: nat)
    requires one == 1 && four == 4
    ensures Pow2(one) == 2 && Pow2(64 - one) == TWO63 && Pow2(four) == 16 && Pow2(64 - four) == TWO60
  {
    var w: nat := 64;
    TwoTo64(w);
    Pow2Add(1, 63);
    Pow2Add(4, 60);
  }

  /** The step of V on two words, as the table is built. */
  method Halve(vh: u64, vl: u64) returns (h: u64, l: u64)
    ensures Join(h, l) == MulX(Join(vh, vl))
  {
    hide Bits.Xor;
    hide Pow2;
    var one: nat, four: nat := 1, 4;
    Shifts(one, four);
    var t: u32 := vl % 2 * 0xe100_0000;
    var top: u64 := t * 0x1_0000_0000;
    l := Funnel(vh, vl, one, 2, TWO63);
    h := Bits.XorU64(vh / 2, top);
    JoinXor(vh / 2, l, top, 0);
    Bits.XorZero(l);
    Bits.XorZero(Join(vh / 2, l));
    assert Join(top, 0) == if vl % 2 == 1 then R else 0;
  }

  lemma DigitAbove(q: nat, rem: nat, z: nat)
    requires z == 16 * q + rem && rem < 16
    ensures MulX4(z) == Bits.Xor(q, MulX4(rem))
  {
    hide Bits.Xor;
    Bits.XorSplit(q, 0, 0, rem, 4, 16);
    Bits.XorZero(q);
    Bits.XorZero(rem);
    Bits.XorCommutes(0, rem);
    assert Bits.Xor(16 * q, rem) == z;
    MulX4Linear(16 * q, rem);
    EvenSteps(q);
  }

  lemma EvenSteps(q: nat)
    ensures MulX4(16 * q) == q
  {
    assert MulX(16 * q) == 8 * q;
    assert MulX(8 * q) == 4 * q;
    assert MulX(4 * q) == 2 * q;
    assert MulX(2 * q) == q;
  }

  /** Four steps at once with the LAST4 table, then one table entry added. */
  method ShiftAdd(zh: u64, zl: u64, hi: u64, lo: u64) returns (h: u64, l: u64)
    ensures Join(h, l) == Bits.Xor(Join(hi, lo), MulX4(Join(zh, zl)))
  {
    hide Bits.Xor;
    hide Pow2;
    hide MulX4;
    var one: nat, four: nat := 1, 4;
    Shifts(one, four);
    var rem := zl % 16;
    l := Funnel(zh, zl, four, 16, TWO60);
    var top: u64 := LAST4[rem] * 0x1_0000_0000_0000;
    h := Bits.XorU64(zh / 16, top);
    DigitAbove(Join(zh / 16, l), rem, Join(zh, zl));
    FallenFour(rem);
    assert Join(top, 0) == LAST4[rem] * UNIT;
    JoinXor(zh / 16, l, top, 0);
    Bits.XorZero(l);
    ghost var z := Join(h, l);
    JoinXor(h, l, hi, lo);
    Bits.XorCommutes(z, Join(hi, lo));
    h := Bits.XorU64(h, hi);
    l := Bits.XorU64(l, lo);
  }

  // ---- the table ---------------------------------------------------------------------------------

  /** htab_hi and htab_lo. */
  datatype Table = Table(hi: seq<u64>, lo: seq<u64>)

  ghost predicate EntryAt(hi: seq<u64>, lo: seq<u64>, h: nat, n: nat)
    requires |hi| == 16 && |lo| == 16 && n < 16
  {
    Join(hi[n], lo[n]) == TableEntry(h, n)
  }

  /** Every 4-bit index holds its multiple of H. */
  ghost predicate Tabulates(t: Table, h: nat) {
    |t.hi| == 16 && |t.lo| == 16 && forall n :: 0 <= n < 16 ==> EntryAt(t.hi, t.lo, h, n)
  }

  lemma PowerEntries(h: nat)
    ensures TableEntry(h, 0) == 0 && TableEntry(h, 8) == h && TableEntry(h, 4) == MulX(h)
    ensures TableEntry(h, 2) == MulX(MulX(h)) && TableEntry(h, 1) == MulX(MulX(MulX(h)))
  {
    hide Bits.Xor;
    hide MulX;
    var h1 := MulX(h);
    var h2 := MulX(h1);
    var h3 := MulX(h2);
    Bits.XorZero(0);
    Bits.XorZero(h);
    Bits.XorZero(h1);
    Bits.XorZero(h2);
    Bits.XorZero(h3);
    Bits.XorCommutes(0, h1);
    Bits.XorCommutes(0, h2);
    Bits.XorCommutes(0, h3);
  }

  lemma TimesSum(a: bool, b: bool, v: nat)
    requires !a || !b
    ensures Bits.Xor(Times(a, v), Times(b, v)) == Times(a || b, v)
  {
    hide Bits.Xor;
    Bits.XorZero(v);
    Bits.XorZero(0);
    Bits.XorCommutes(0, v);
  }

  lemma BitsOfSum(i: nat, j: nat)
    requires (i == 2 || i == 4 || i == 8) && 1 <= j < i
    ensures forall w {:trigger i / w} {:trigger (i + j) / w} :: w == 8 || w == 4 || w == 2 || w == 1 ==>
      !(i / w % 2 == 1 && j / w % 2 == 1) && ((i + j) / w % 2 == 1 <==> i / w % 2 == 1 || j / w % 2 == 1)
  {
    if i == 2 {
      assert j == 1;
    } else if i == 4 {
      if j == 1 {} else if j == 2 {} else { assert j == 3; }
    } else {
      assert i == 8;
      if j == 1 {} else if j == 2 {} else if j == 3 {} else if j == 4 {} else if j == 5 {} else if j == 6 {}
          else { assert j == 7; }
    }
  }

  /** Entries of indices without a common bit add up. */
  lemma EntrySum(h: nat, i: nat, j: nat)
    requires (i == 2 || i == 4 || i == 8) && 1 <= j < i
    ensures Bits.Xor(TableEntry(h, i), TableEntry(h, j)) == TableEntry(h, i + j)
  {
    hide Bits.Xor;
    hide MulX;
    hide Times;
    var h1 := MulX(h);
    var h2 := MulX(h1);
    var h3 := MulX(h2);
    var s := i + j;
    var a, b, c, d := Times(i / 8 % 2 == 1, h), Times(i / 4 % 2 == 1, h1), Times(i / 2 % 2 == 1, h2),
        Times(i % 2 == 1, h3);
    var e, f, g, k := Times(j / 8 % 2 == 1, h), Times(j / 4 % 2 == 1, h1), Times(j / 2 % 2 == 1, h2),
        Times(j % 2 == 1, h3);
    BitsOfSum(i, j);
    TimesSum(i / 8 % 2 == 1, j / 8 % 2 == 1, h);
    TimesSum(i / 4 % 2 == 1, j / 4 % 2 == 1, h1);
    TimesSum(i / 2 % 2 == 1, j / 2 % 2 == 1, h2);
    assert i / 1 == i && j / 1 == j && s / 1 == s;
    TimesSum(i % 2 == 1, j % 2 == 1, h3);
    Bits.XorMiddle(Bits.Xor(a, b), Bits.Xor(c, d), Bits.Xor(e, f), Bits.Xor(g, k));
    Bits.XorMiddle(a, b, e, f);
    Bits.XorMiddle(c, d, g, k);
  }

  /** V when the loop that fills entries 4, 2 and 1 stands at index i. */
  function Stepped(h: nat, i: nat): nat {
    if i == 4 then h else if i == 2 then MulX(h) else if i == 1 then MulX(MulX(h)) else MulX(MulX(MulX(h)))
  }

  /** The powers: htab[8] = H, then each half of the index is one step on. */
  method FillPowers(hi: array<u64>, lo: array<u64>, first: u64, second: u64, ghost h: nat)
    requires hi != lo && hi.Length == 16 && lo.Length == 16 && Join(first, second) == h
    modifies hi, lo
    ensures forall n :: n == 0 || n == 1 || n == 2 || n == 4 || n == 8 ==> EntryAt(hi[..], lo[..], h, n)
  {
    hide MulX;
    hide TableEntry;
    hide Join;
    PowerEntries(h);
    var vh, vl := first, second;
    hi[8], lo[8] := vh, vl;
    hi[0], lo[0] := 0, 0;
    assert Join(0, 0) == 0 by { JoinZero(); }
    var i := 4;
    while i > 0
      invariant i == 4 || i == 2 || i == 1 || i == 0
      invariant Join(vh, vl) == Stepped(h, i)
      invariant EntryAt(hi[..], lo[..], h, 0) && EntryAt(hi[..], lo[..], h, 8)
      invariant i < 4 ==> EntryAt(hi[..], lo[..], h, 4)
      invariant i < 2 ==> EntryAt(hi[..], lo[..], h, 2)
      invariant i < 1 ==> EntryAt(hi[..], lo[..], h, 1)
    {
      vh, vl := Halve(vh, vl);
      hi[i] := vh;
      lo[i] := vl;
      i := i / 2;
    }
  }

  lemma JoinZero()
    ensures Join(0, 0) == 0
  {}

  /** The sums: every other index is a power plus a smaller index. */
  method FillSums(hi: array<u64>, lo: array<u64>, ghost h: nat)
    requires hi != lo && hi.Length == 16 && lo.Length == 16
    requires forall n :: n == 0 || n == 1 || n == 2 || n == 4 || n == 8 ==> EntryAt(hi[..], lo[..], h, n)
    modifies hi, lo
    ensures forall n :: 0 <= n < 16 ==> EntryAt(hi[..], lo[..], h, n)
  {
    hide TableEntry;
    hide Join;
    hide Bits.Xor;
    var i := 2;
    while i <= 8
      invariant i == 2 || i == 4 || i == 8 || i == 16
      invariant forall n :: 0 <= n < i || n == 4 || n == 8 ==> EntryAt(hi[..], lo[..], h, n)
      invariant i <= 8 ==> EntryAt(hi[..], lo[..], h, i)
    {
      var bh, bl := hi[i], lo[i];
      var j := 1;
      while j < i
        invariant 1 <= j <= i
        invariant forall n :: 0 <= n < i + j || n == 4 || n == 8 ==> EntryAt(hi[..], lo[..], h, n)
        invariant bh == hi[i] && bl == lo[i]
      {
        EntrySum(h, i, j);
        JoinXor(bh, bl, hi[j], lo[j]);
        assert EntryAt(hi[..], lo[..], h, i) && EntryAt(hi[..], lo[..], h, j);
        ghost var his, los := hi[..], lo[..];
        hi[i + j] := Bits.XorU64(bh, hi[j]);
        lo[i + j] := Bits.XorU64(bl, lo[j]);
        assert hi[..] == his[i + j := hi[i + j]] && lo[..] == los[i + j := lo[i + j]];
        assert EntryAt(hi[..], lo[..], h, i + j);
        forall n | 0 <= n < 16 && n != i + j && EntryAt(his, los, h, n)
          ensures EntryAt(hi[..], lo[..], h, n)
        {}
        j := j + 1;
      }
      i := i * 2;
    }
  }

  /** The 128-bit number in a block, read as two words of two big-endian words each. */
  lemma BlockWords(b: seq<u8>)
    requires |b| == 16
    ensures Os2ip(b) == ((BeWord(b, 0) * 0x1_0000_0000 + BeWord(b, 4)) * TWO64
                         + (BeWord(b, 8) * 0x1_0000_0000 + BeWord(b, 12)))
  {
    hide Os2ip;
    hide BeWord;
    hide Pow;
    var x, y, z := b[..4], b[..8], b[..12];
    var p: nat, q: nat := 256, 4;
    WordPower(p, q);
    assert b == z + b[12..16] && z == y + b[8..12] && y == x + b[4..8] && x == b[0..4];
    Os2ipConcat(z, b[12..16]);
    Os2ipConcat(y, b[8..12]);
    Os2ipConcat(x, b[4..8]);
    BeWordIsOs2ip(b, 0);
    BeWordIsOs2ip(b, 4);
    BeWordIsOs2ip(b, 8);
    BeWordIsOs2ip(b, 12);
  }

  lemma WordPower(b: nat, e: nat)
    requires b == 256 && e == 4
    ensures Pow(b, e) == 0x1_0000_0000
  {
    assert Pow(b, 0) == 1;
    assert Pow(b, 1) == b * Pow(b, 0);
    assert Pow(b, 2) == b * Pow(b, 1);
    assert Pow(b, 3) == b * Pow(b, 2);
  }

  /** The table of aes_gcm_init, H being the encrypted zero block. */
  method BuildTable(key: seq<u8>) returns (t: Table)
    requires |key| == 16
    ensures Tabulates(t, Os2ip(key))
  {
    hide Os2ip;
    hide TableEntry;
    BlockWords(key);
    var vh: u64 := BeWord(key, 0) * 0x1_0000_0000 + BeWord(key, 4);
    var vl: u64 := BeWord(key, 8) * 0x1_0000_0000 + BeWord(key, 12);
    ghost var h := Os2ip(key);
    var hi := new u64[16];
    var lo := new u64[16];
    FillPowers(hi, lo, vh, vl, h);
    FillSums(hi, lo, h);
    t := Table(hi[..], lo[..]);
  }

  // ---- multiplying by H ----------------------------------------------------------------------------

  lemma LastNibble(x: seq<u8>, h: nat)
    requires |x| == 16
    ensures Serial(x, 124, h) == TableEntry(h, Nibble(x, 31))
  {
    hide Bits.Xor;
    hide TableEntry;
    SerialNibble(x, 31, h);
    Bits.XorZero(TableEntry(h, Nibble(x, 31)));
  }

  /** One more digit, from its table entry and the digits after it. */
  method TakeDigit(t: Table, ghost h: nat, x: seq<u8>, k: nat, zh: u64, zl: u64) returns (nh: u64, nl: u64)
    requires Tabulates(t, h) && |x| == 16 && k < 31 && Join(zh, zl) == Serial(x, 4 * k + 4, h)
    ensures Join(nh, nl) == Serial(x, 4 * k, h)
  {
    hide Bits.Xor;
    hide TableEntry;
    hide Serial;
    hide MulX4;
    hide Join;
    var n := Nibble(x, k);
    SerialNibble(x, k, h);
    assert EntryAt(t.hi, t.lo, h, n);
    nh, nl := ShiftAdd(zh, zl, t.hi[n], t.lo[n]);
  }

  /** gf_mult_h: x := x * H, exactly the bit-serial product. */
  method MultiplyByH(t: Table, ghost h: nat, x: array<u8>)
    requires Tabulates(t, h) && x.Length == 16
    modifies x
    ensures x[..] == I2osp(Product(old(x[..]), h), 16)
  {
    hide Serial;
    hide TableEntry;
    hide Join;
    hide Nibble;
    ghost var x0 := x[..];
    var n := Nibble(x[..], 31);
    LastNibble(x0, h);
    assert EntryAt(t.hi, t.lo, h, n);
    var zh, zl := t.hi[n], t.lo[n];
    var i := 15;
    while i >= 0
      invariant -1 <= i <= 15 && x[..] == x0
      invariant Join(zh, zl) == Serial(x0, if i == 15 then 124 else 8 * (i + 1), h)
    {
      if i != 15 {
        zh, zl := TakeDigit(t, h, x[..], 2 * i + 1, zh, zl);
      }
      zh, zl := TakeDigit(t, h, x[..], 2 * i, zh, zl);
      i := i - 1;
    }
    StoreBlock(x, zh, zl);
  }

  /** Four put_be32. */
  method StoreBlock(x: array<u8>, zh: u64, zl: u64)
    requires x.Length == 16
    modifies x
    ensures x[..] == I2osp(Join(zh, zl), 16)
  {
    hide Os2ip;
    hide I2osp;
    PutBe32(x, 0, zh / 0x1_0000_0000);
    PutBe32(x, 4, zh % 0x1_0000_0000);
    PutBe32(x, 8, zl / 0x1_0000_0000);
    PutBe32(x, 12, zl % 0x1_0000_0000);
    BlockWords(x[..]);
    I2ospOfOs2ip(x[..]);
  }

  method PutBe32(x: array<u8>, at: nat, v: u32)
    requires at + 4 <= x.Length
    modifies x
    ensures BeWord(x[..], at) == v
    ensures forall k :: 0 <= k < x.Length && !(at <= k < at + 4) ==> x[k] == old(x[k])
  {
    x[at] := v / 0x100_0000;
    x[at + 1] := v / 0x1_0000 % 0x100;
    x[at + 2] := v / 0x100 % 0x100;
    x[at + 3] := v % 0x100;
    StoredIsBeWord(x[..], at, v);
  }

  // ---- GHASH ---------------------------------------------------------------------------------------

  /** y with a block added, a short one as if padded with zeros. */
  function Added(y: seq<u8>, b: seq<u8>): (r: seq<u8>)
    requires |b| <= |y|
    ensures |r| == |y|
  {
    seq(|y|, i requires 0 <= i < |y| => if i < |b| then Bits.Xor8(y[i], b[i]) else y[i])
  }

  /** Section 6.4's GHASH continued from y over data of any length. */
  ghost function Fold(y: seq<u8>, data: seq<u8>, h: nat): (r: seq<u8>)
    requires |y| == 16
    ensures |r| == 16
    decreases |data|
  {
    if |data| == 0 then y
    else
      var n := if |data| < 16 then |data| else 16;
      Fold(I2osp(Product(Added(y, data[..n]), h), 16), data[n..], h)
  }

  /** ghash_update. */
  method GhashUpdate(t: Table, ghost h: nat, y: array<u8>, data: seq<u8>)
    requires Tabulates(t, h) && y.Length == 16
    modifies y
    ensures y[..] == Fold(old(y[..]), data, h)
  {
    hide I2osp;
    hide Product;
    hide Bits.Xor8;
    var at := 0;
    while at < |data|
      invariant 0 <= at <= |data|
      invariant Fold(y[..], data[at..], h) == Fold(old(y[..]), data, h)
    {
      var n := if |data| - at < 16 then |data| - at else 16;
      ghost var y0 := y[..];
      XorInto(y, data[at..at + n]);
      MultiplyByH(t, h, y);
      assert data[at..][..n] == data[at..at + n] && data[at..][n..] == data[at + n..];
      at := at + n;
    }
  }

  method XorInto(y: array<u8>, b: seq<u8>)
    requires |b| <= y.Length
    modifies y
    ensures y[..] == Added(old(y[..]), b)
  {
    hide Bits.Xor8;
    var i := 0;
    while i < |b|
      invariant 0 <= i <= |b|
      invariant forall k :: 0 <= k < i ==> y[k] == Bits.Xor8(old(y[k]), b[k])
      invariant forall k :: i <= k < y.Length ==> y[k] == old(y[k])
    {
      y[i] := Bits.Xor8(y[i], b[i]);
      i := i + 1;
    }
  }

  /** A whole number of blocks and what follows it are folded one after the other. */
  lemma {:induction false} FoldSplit(y: seq<u8>, a: seq<u8>, b: seq<u8>, h: nat)
    requires |y| == 16 && |a| % 16 == 0
    ensures Fold(y, a + b, h) == Fold(Fold(y, a, h), b, h)
    decreases |a|
  {
    hide Added;
    hide Product;
    hide I2osp;
    if |a| == 0 {
      assert a + b == b;
    } else {
      assert (a + b)[..16] == a[..16] && (a + b)[16..] == a[16..] + b;
      FoldSplit(I2osp(Product(Added(y, a[..16]), h), 16), a[16..], b, h);
    }
  }

  function Zeros(n: nat): (z: seq<u8>)
    ensures |z| == n && forall i :: 0 <= i < n ==> z[i] == 0
  {
    seq(n, i => 0)
  }

  /** Data with zeros up to a whole number of blocks. */
  function Padded(data: seq<u8>): (r: seq<u8>)
    ensures |r| % 16 == 0
  {
    var over := |data| % 16;
    if over == 0 then data else data + Zeros(16 - over)
  }

  lemma AddedZeros(y: seq<u8>, b: seq<u8>)
    requires |b| <= |y|
    ensures Added(y, b + Zeros(|y| - |b|)) == Added(y, b)
  {
    hide Bits.Xor;
    forall i | |b| <= i < |y|
      ensures Bits.Xor8(y[i], 0) == y[i]
    {
      Bits.XorZero(y[i]);
    }
  }

  /** A short last block counts as its zero padding. */
  lemma {:induction false} FoldPadded(y: seq<u8>, data: seq<u8>, h: nat)
    requires |y| == 16
    ensures Fold(y, Padded(data), h) == Fold(y, data, h)
    decreases |data|
  {
    hide Added;
    hide Product;
    hide I2osp;
    if |data| >= 16 {
      var z := I2osp(Product(Added(y, data[..16]), h), 16);
      FoldPadded(z, data[16..], h);
      assert Padded(data)[..16] == data[..16];
      assert Padded(data)[16..] == Padded(data[16..]);
    } else if |data| > 0 {
      var p := Padded(data);
      AddedZeros(y, data);
      assert p[..16] == p && p[16..] == [] && data[..|data|] == data && data[|data|..] == [];
    }
  }
}
